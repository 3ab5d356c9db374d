/**
 * One synchronisation pass (`updateRoles`): for each element of the group
 * list, in order, parse it, look the group up in the directory, and update
 * the role binding named by `-role-name` in the element's namespace. The
 * first element that cannot be parsed, whose group lookup fails or whose
 * binding update fails ends the pass; later elements are not looked at.
 *
 * The directory lookup and the cluster update are calls into code outside
 * the model, given as the predicates `groupFound` and `updateAccepted`. Each
 * call can succeed or fail on its own, so both also receive the position of
 * the element in the list.
 */
module RoleSync {
  import opened GoStrings
  import opened GroupList
  import opened Startup

  /** The update sent to the cluster: the role binding `name` in `namespace`. */
  datatype BindingUpdate = BindingUpdate(namespace: string, name: string)

  /** What ended a pass early. */
  datatype Abort =
    | Rejected(error: ElementError)     // the element did not parse
    | LookupFailed(email: string)       // the directory lookup of the group failed
    | UpdateFailed(update: BindingUpdate)  // the cluster refused the update

  /** The outcome of one element. */
  datatype Step = Applied(update: BindingUpdate) | Stopped(reason: Abort)

  /** The outcome of a pass: every element applied, or stopped at `index`. */
  datatype PassOutcome = Completed | Aborted(index: nat, reason: Abort)

  /** Handles one element of the group list. */
  function ElementStep(roleName: string, index: nat, element: string,
                       groupFound: (nat, string) -> bool, updateAccepted: (nat, BindingUpdate) -> bool): (step: Step)
  {
    match ParseElement(element)
    case Failure(e) => Stopped(Rejected(e))
    case Success(t) =>
      if !groupFound(index, t.email) then Stopped(LookupFailed(t.email))
      else
        var update := BindingUpdate(t.namespace, roleName);
        if updateAccepted(index, update) then Applied(update) else Stopped(UpdateFailed(update))
  }

  /**
   * `applied` and `outcome` are what a pass over `elements` produces: the
   * elements before the stopping point (all of them, for a completed pass)
   * each applied their update, in order, and the element at the stopping
   * point stopped for the reason given.
   */
  ghost predicate IsPassResult(roleName: string, elements: seq<string>,
                               groupFound: (nat, string) -> bool, updateAccepted: (nat, BindingUpdate) -> bool,
                               applied: seq<BindingUpdate>, outcome: PassOutcome)
  {
    && |applied| <= |elements|
    && (forall j :: 0 <= j < |applied| ==>
          ElementStep(roleName, j, elements[j], groupFound, updateAccepted) == Applied(applied[j]))
    && (outcome.Completed? <==> |applied| == |elements|)
    && (outcome.Aborted? ==>
          && outcome.index == |applied|
          && ElementStep(roleName, |applied|, elements[|applied|], groupFound, updateAccepted) == Stopped(outcome.reason))
  }

  /**
   * One pass over the group list in `options`. Returns the binding updates
   * the cluster accepted, in order, and how the pass ended.
   */
  method UpdateRoles(options: Options, groupFound: (nat, string) -> bool, updateAccepted: (nat, BindingUpdate) -> bool)
    returns (applied: seq<BindingUpdate>, outcome: PassOutcome)
    ensures IsPassResult(options.roleName, Elements(options.groupList), groupFound, updateAccepted,
                         applied, outcome)
    ensures forall j :: 0 <= j < |applied| ==>
      && ParseElement(Elements(options.groupList)[j]).Success?
      && applied[j] == BindingUpdate(ParseElement(Elements(options.groupList)[j]).value.namespace,
                                     options.roleName)
  {
    var elements := Elements(options.groupList);
    applied := [];
    var i := 0;
    while i < |elements|
      invariant 0 <= i <= |elements| && |applied| == i
      invariant forall j :: 0 <= j < i ==>
        ElementStep(options.roleName, j, elements[j], groupFound, updateAccepted) == Applied(applied[j])
    {
      var parsed := ParseElement(elements[i]);
      if parsed.Failure? {
        return applied, Aborted(i, Rejected(parsed.error));
      }
      var namespace, email := parsed.value.namespace, parsed.value.email;
      if !groupFound(i, email) {
        return applied, Aborted(i, LookupFailed(email));
      }
      var update := BindingUpdate(namespace, options.roleName);
      if !updateAccepted(i, update) {
        return applied, Aborted(i, UpdateFailed(update));
      }
      applied := applied + [update];
      i := i + 1;
    }
    outcome := Completed;
  }

  /**
   * An applied element is an accepted one: its update names the parsed
   * namespace and the configured role binding, after a successful lookup of
   * the parsed group; an element that does not parse stops with its error.
   */
  lemma AppliedStep(roleName: string, index: nat, element: string,
                    groupFound: (nat, string) -> bool, updateAccepted: (nat, BindingUpdate) -> bool)
    ensures ElementStep(roleName, index, element, groupFound, updateAccepted).Applied? <==>
      && ParseElement(element).Success?
      && groupFound(index, ParseElement(element).value.email)
      && updateAccepted(index, BindingUpdate(ParseElement(element).value.namespace, roleName))
    ensures ElementStep(roleName, index, element, groupFound, updateAccepted).Applied? ==>
      ElementStep(roleName, index, element, groupFound, updateAccepted).update ==
        BindingUpdate(ParseElement(element).value.namespace, roleName)
    ensures ParseElement(element).Failure? ==>
      ElementStep(roleName, index, element, groupFound, updateAccepted) == Stopped(Rejected(ParseElement(element).error))
  {
  }

  /** A pass result is determined by its inputs: at most one result fits. */
  lemma {:induction false} PassResultUnique(roleName: string, elements: seq<string>,
                                            groupFound: (nat, string) -> bool, updateAccepted: (nat, BindingUpdate) -> bool,
                                            applied1: seq<BindingUpdate>, outcome1: PassOutcome,
                                            applied2: seq<BindingUpdate>, outcome2: PassOutcome)
    requires IsPassResult(roleName, elements, groupFound, updateAccepted, applied1, outcome1)
    requires IsPassResult(roleName, elements, groupFound, updateAccepted, applied2, outcome2)
    ensures applied1 == applied2 && outcome1 == outcome2
  {
    forall j | 0 <= j < |applied1| && j < |applied2| ensures applied1[j] == applied2[j] {
      assert Applied(applied1[j]) == Applied(applied2[j]);
    }
  }

  /**
   * A completed pass parsed the whole group list, and updated the configured
   * binding in each listed namespace, in list order.
   */
  lemma CompletedPassTargets(roleName: string, groupList: string,
                             groupFound: (nat, string) -> bool, updateAccepted: (nat, BindingUpdate) -> bool,
                             applied: seq<BindingUpdate>)
    requires IsPassResult(roleName, Elements(groupList), groupFound, updateAccepted, applied, Completed)
    ensures ParseGroupList(groupList).Success?
    ensures var targets := ParseGroupList(groupList).value;
      && |applied| == |targets|
      && forall j :: 0 <= j < |targets| ==>
           applied[j] == BindingUpdate(targets[j].namespace, roleName) && groupFound(j, targets[j].email)
  {
    var elements := Elements(groupList);
    forall k | 0 <= k < |elements| ensures ParseElement(elements[k]).Success? {
      AppliedStep(roleName, k, elements[k], groupFound, updateAccepted);
    }
    ParseElementsAccepted(elements);
  }

  /**
   * A group list with an element that does not parse never completes a pass,
   * and the pass applies nothing at or after the first such element.
   */
  lemma RejectedListStopsPass(roleName: string, groupList: string,
                              groupFound: (nat, string) -> bool, updateAccepted: (nat, BindingUpdate) -> bool,
                              applied: seq<BindingUpdate>, outcome: PassOutcome)
    requires IsPassResult(roleName, Elements(groupList), groupFound, updateAccepted, applied, outcome)
    requires ParseGroupList(groupList).Failure?
    ensures outcome.Aborted?
    ensures outcome.index <= ParseGroupList(groupList).error.index
  {
    var elements := Elements(groupList);
    ParseElementsRejected(elements);
  }

  /**
   * A list that parses, whose every group lookup succeeds and whose every
   * update is accepted, completes its pass, updating the configured binding
   * in each listed namespace, in list order.
   */
  lemma AcceptedListCompletes(roleName: string, groupList: string,
                              groupFound: (nat, string) -> bool, updateAccepted: (nat, BindingUpdate) -> bool,
                              applied: seq<BindingUpdate>, outcome: PassOutcome)
    requires ParseGroupList(groupList).Success?
    requires var targets := ParseGroupList(groupList).value;
      forall j :: 0 <= j < |targets| ==>
        groupFound(j, targets[j].email) && updateAccepted(j, BindingUpdate(targets[j].namespace, roleName))
    requires IsPassResult(roleName, Elements(groupList), groupFound, updateAccepted, applied, outcome)
    ensures outcome == Completed
    ensures var targets := ParseGroupList(groupList).value;
      && |applied| == |targets|
      && forall j :: 0 <= j < |targets| ==> applied[j] == BindingUpdate(targets[j].namespace, roleName)
  {
    var elements := Elements(groupList);
    ParseElementsAccepted(elements);
    if outcome.Aborted? {
      var i := |applied|;
      AppliedStep(roleName, i, elements[i], groupFound, updateAccepted);
      assert false;
    }
    CompletedPassTargets(roleName, groupList, groupFound, updateAccepted, applied);
  }

  /** What one run of the program does: stop at start-up, or run a pass. */
  datatype RunResult =
    | StartupFailed(error: ConfigError)
    | PassRan(applied: seq<BindingUpdate>, outcome: PassOutcome)

  /**
   * The program's order of work: the required options are checked first,
   * and only when they are all set does a pass parse the group list and
   * update bindings. A start-up failure applies no update.
   */
  method Run(options: Options, groupFound: (nat, string) -> bool, updateAccepted: (nat, BindingUpdate) -> bool)
    returns (result: RunResult)
    ensures result.StartupFailed? <==> CheckRequiredOptions(options).Failure?
    ensures result.StartupFailed? ==> result.error == CheckRequiredOptions(options).error
    ensures result.PassRan? ==>
      IsPassResult(options.roleName, Elements(options.groupList), groupFound, updateAccepted,
                   result.applied, result.outcome)
  {
    var checked := CheckRequiredOptions(options);
    if checked.Failure? {
      return StartupFailed(checked.error);
    }
    var applied, outcome := UpdateRoles(checked.value, groupFound, updateAccepted);
    result := PassRan(applied, outcome);
  }
}
