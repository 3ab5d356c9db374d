# kubernetes-rbac-synchroniser, modelled in Dafny

The synchroniser keeps one role binding per Kubernetes namespace in step with
a directory group. At start-up it checks that three options are set:
`-cluster-role-name`, `-role-name` and `-group-list`. If one is empty, it
exits with status 1. Every 30 seconds it then runs a pass (`updateRoles`)
over the `-group-list` option, a comma-separated list of `namespace:email`
elements. For each element in order, it looks the group up in the directory
and updates the role binding named by `-role-name` in that namespace. Any
failure ends the pass: an element that cannot be parsed, a failed group
lookup or a failed update. The test file also fixes the behaviour of `uniq`,
which removes repeated group members. Two members count as repeated when
they have the same email. `uniq` keeps the first occurrence of each email,
in first-seen order.

Modules:

- `Wrappers`: the `Result` datatype.
- `GoStrings`: Go's `strings.Split` and `strings.Join` for a one-character
  separator. A string with n separators splits into n + 1 pieces, and `""`
  splits into `[""]`.
- `GroupList`: parsing one element (`ParseElement`) and the whole list
  (`ParseGroupList`), and the default option value.
- `Startup`: the checks on the required options.
- `RoleSync`: one pass, as the method `UpdateRoles` with a loop that stops
  at the first failing element. The directory lookup and the cluster update
  are parameters: `groupFound` says whether the lookup of an email
  succeeds, and `updateAccepted` says whether the cluster accepts an update.
  `Run` puts the start-up checks before the pass, in the program's order.
- `Members`: `Uniq`, the specification of de-duplication by email;
  `UniqMembers`, the loop form of it; and the properties `TestUniq` checks,
  generalised to every input.

Points where the code's behaviour shapes the model:

- Every failure in a pass is fatal in the code: `log.Fatalf` on an empty
  field or a failed lookup, `panic` on a failed update, and an
  index-out-of-range panic on an element without `:`. The model stops the
  pass at that element.
- The update carries only the binding name, so `BindingUpdate` holds only a
  namespace and a name.
- The code has no nested-group expansion, and neither does the model.
- The body of `uniq` and the fixture `getFakeMembers` are not part of this
  model. `Uniq` is written from what `TestUniq` asserts: members are keyed
  by email, and the first occurrence is kept.
- Each directory lookup and each cluster update is a separate call that can
  fail on its own, so the predicates `groupFound` and `updateAccepted` also
  receive the position of the element in the list.

## Model

| member | source | states |
|---|---|---|
| GoStrings.SplitCount | kubernetes-rbac-synchroniser.go:143 | splitting the group list gives one element more than there are commas in it |
| GoStrings.JoinSplit | kubernetes-rbac-synchroniser.go:143-144 | joining the split pieces back with the separator gives the original string |
| GoStrings.SplitJoin | kubernetes-rbac-synchroniser.go:143-144 | splitting a join of separator-free pieces gives back exactly those pieces, in order |
| GoStrings.SplitPiecesFree | kubernetes-rbac-synchroniser.go:143-145 | no piece of a split contains the separator |
| GoStrings.SplitNoSeparator | kubernetes-rbac-synchroniser.go:145-146 | a string without the separator splits into itself alone, so an element with no `:` has no piece [1] |
| GoStrings.SplitAtFirst | kubernetes-rbac-synchroniser.go:145-146 | the first piece ends at the first separator, and the rest of the string splits on its own |
| GoStrings.LeadingSeparator | kubernetes-rbac-synchroniser.go:143 | a leading separator makes the first piece empty |
| GoStrings.TrailingSeparator | kubernetes-rbac-synchroniser.go:143 | a trailing separator makes the last piece empty |
| GoStrings.DoubledSeparator | kubernetes-rbac-synchroniser.go:143 | two separators in a row produce an empty piece |
| GroupList.ParseElement | kubernetes-rbac-synchroniser.go:145-149 | an element is refused as missing its `:` exactly when it has no `:`; an accepted namespace and email are non-empty and free of `:` |
| GroupList.AcceptedElement | kubernetes-rbac-synchroniser.go:145-149 | `ns:email`, with nothing after it or with further `:`-separated text, parses to exactly (ns, email) when both are non-empty and free of `:` |
| GroupList.AcceptedElementShape | kubernetes-rbac-synchroniser.go:145-146 | an accepted element is its namespace, `:`, its email, then nothing or text beginning with `:` (the converse of AcceptedElement) |
| GroupList.RejectedEmptyField | kubernetes-rbac-synchroniser.go:145-149 | an element whose text before the first `:` or between the first and second `:` is empty is refused, with an error naming both fields, whatever follows a second `:` |
| GroupList.ParseElementsAccepted | kubernetes-rbac-synchroniser.go:144-149 | the list parses exactly when every element does, and the targets are the elements' own, in list order |
| GroupList.ParseElementsRejected | kubernetes-rbac-synchroniser.go:144-149 | a refused list names the first refused element and its error; every element before it parses |
| GroupList.EmptyElementRejected | kubernetes-rbac-synchroniser.go:143-146 | an empty element anywhere in the list makes the list fail to parse |
| GroupList.StrayCommaRejected | kubernetes-rbac-synchroniser.go:143-146 | a leading, trailing or doubled comma makes the list fail to parse |
| GroupList.ElementsRejoin | kubernetes-rbac-synchroniser.go:143 | the elements re-joined with `,` give back the option value, and there is one more element than there are commas |
| GroupList.TwoTargetList | kubernetes-rbac-synchroniser.go:143-149 | `ns1:e1,ns2:e2` with well-formed fields parses to [(ns1, e1), (ns2, e2)] |
| GroupList.TwoElements | kubernetes-rbac-synchroniser.go:143 | two comma-free elements joined by one comma split back into those two |
| GroupList.DefaultGroupListTargets | kubernetes-rbac-synchroniser.go:60 | the default group list parses to [("default", "group1@test.com"), ("kube-system", "group2@test.com")] |
| Startup.DefaultOptionsAccepted | kubernetes-rbac-synchroniser.go:58-60 | the default option values pass the start-up checks unchanged |
| Startup.CheckRequiredOptions | kubernetes-rbac-synchroniser.go:68-85 | start-up succeeds exactly when cluster-role-name, role-name and group-list are all non-empty; otherwise the error names the first empty one, in that order |
| RoleSync.UpdateRoles | kubernetes-rbac-synchroniser.go:143-175 | the pass applies the elements in list order, each updating the binding named by role-name in its own parsed namespace, and stops at the first element whose parse, lookup or update fails, processing nothing after it |
| RoleSync.AcceptedListCompletes | kubernetes-rbac-synchroniser.go:143-175 | a list that parses, whose lookups all succeed and whose updates are all accepted, completes its pass with exactly (namespace, role-name) per target, in order (the converse of CompletedPassTargets) |
| RoleSync.PassResultUnique | kubernetes-rbac-synchroniser.go:144-175 | the description of a pass result admits only one result for given inputs |
| RoleSync.CompletedPassTargets | kubernetes-rbac-synchroniser.go:163-169 | after a completed pass the whole list parsed, and the updates are exactly (namespace, role-name) for each target, in order |
| RoleSync.RejectedListStopsPass | kubernetes-rbac-synchroniser.go:148-149 | if the list has an element that does not parse, the pass aborts, at or before the first such element |
| RoleSync.Run | kubernetes-rbac-synchroniser.go:68-96 | the required options are checked before a pass starts: a start-up error names the first empty option and applies no update; otherwise the pass on the same options runs |
| Members.UniqMembers | kubernetes-rbac-synchroniser_test.go:23-41 | the loop form of `uniq` returns `Uniq` of its input: no repeated email, and exactly the emails of the input |
| Members.UniqNoDuplicates | kubernetes-rbac-synchroniser_test.go:33-41 | no two members of the result share an email |
| Members.UniqEmails | kubernetes-rbac-synchroniser_test.go:23-41 | an email appears in the result exactly when it appears in the input |
| Members.UniqFirstSeenOrder | kubernetes-rbac-synchroniser_test.go:33-41 | each kept member is the first input member with its email, and the result is ordered by where each email first appears |
| Members.UniqLength | kubernetes-rbac-synchroniser_test.go:28-31 | the result is never longer than the input |
| Members.UniqOfUnique | kubernetes-rbac-synchroniser_test.go:23-41 | a list without repeated emails is returned unchanged |
| Members.UniqIdempotent | kubernetes-rbac-synchroniser_test.go:23-41 | de-duplicating the result again changes nothing |
| Members.UniqSingleEmail | kubernetes-rbac-synchroniser_test.go:10-14 | a non-empty list whose members all share one email reduces to its first member, so its length is 1 |
| Members.UniqRepeatedMembers | kubernetes-rbac-synchroniser_test.go:23-41 | for three distinct emails, `m1, m2, m1, m3, m2` reduces to `m1, m2, m3`: length 3, in first-seen order |

## Left out

- The metrics and health HTTP server (kubernetes-rbac-synchroniser.go:109-121) is left out: it is network I/O and metrics registration.
- The SIGTERM handler and the endless loop that starts a pass every 30 seconds (kubernetes-rbac-synchroniser.go:91-107) are left out: they are concurrency and timing. The model covers one pass.
- Reading `client_secret.json`, building the OAuth configuration, and the token cache and web flow (kubernetes-rbac-synchroniser.go:126-142, 181-249) are left out: they are file I/O, interactive input and a foreign library. Their fatal failures before the first element are not modelled.
- The group settings lookup (kubernetes-rbac-synchroniser.go:151-157) is only the predicate `groupFound`. Printing the settings is left out.
- Building the Kubernetes client (kubernetes-rbac-synchroniser.go:158-161) is left out. Its panic is not modelled. The update call (kubernetes-rbac-synchroniser.go:169-173) is only the predicate `updateAccepted` and the `BindingUpdate` event. The printed result name is left out.
- Flag parsing and the kubeconfig path (kubernetes-rbac-synchroniser.go:57-66, 86-89) are left out. The parsed option values are the inputs of `CheckRequiredOptions` and `UpdateRoles`.
- The log lines and usage text printed on each failure are left out. The exit status 1 of a start-up failure is represented by any `ConfigError`.
- The cluster role name is checked at start-up but not used by a pass, as in the code.
- `Members.Member` keeps only an email and an id out of the directory's member record, because only the email takes part in de-duplication.
