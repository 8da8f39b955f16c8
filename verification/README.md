# Verified model of gopherizer's authorization, transaction and error logic

The project models the four parts of the service that hold algorithms or state, and proves what the service promises
about them for all inputs and over whole runs. `dafny verify dfyconfig.toml` checks everything.

* **Authorization algebra** (`Authx`, `Requirements`, `RequirementsText`, `RequirementsHeap`). Requirements are
  disjunctions of conjunctions. `AllOf` is proved to be the mixed-radix product of its arguments, nesting flattens,
  normalising a rule of any depth preserves its meaning, the rendering in the denial log can be read back, and the heap
  version of `AllOf` hands out arrays that nothing else shares.
* **Token to decision** (`Claims`, `Verify`, `Discovery`, `Guard`). Claim lookup, the spellings of name lists, the
  refusal of ID tokens, outage against refusal, the bearer header, the four ways a guarded request ends, what the
  generated document may claim, and the discovery loop against a clock.
* **Transactions** (`Tx`). `Execute` over a store, a pool and every combination of a failing BEGIN, COMMIT or ROLLBACK
  with a callback that returns, fails, panics, exits its goroutine or closes the transaction itself.
* **Errors and profiles** (`ErrorX`, `ErrorPath`, `Profiles`). Errors are trees searched depth first in pre-order; the
  status of a response is a function of the driver's tree. Repository and service are objects that refine a map driven
  by the four SQL statements.
* **Everything together** (`Operations`). The profile operations behind their guards: over any run of requests, row by
  row, a row changes or appears only for a caller who held the scope and whose request named it or was given its id,
  holds the names that such a request asked for, and disappears only for a caller who held the role as well.

`Wrappers` holds an option type and `Flatten`; `Text` models the functions of Go's `strings` package that the code
calls. Each stateful Go type is a class whose methods are proved equal to a function of the old state (`Tx.Executed`,
`Profiles.ServiceStep`, `Guard.Decide`, `Verify.Judge`), and the lemmas below say what those functions promise.

## Promises that hold only under a condition

Where the code differs from its documentation the model follows the code, gives an input, and states for all inputs
exactly when the promise is kept.

* `database/tx.go` says that `Execute` rolls back unless the callback returns nil. `Tx.RollsBackUnlessNilIff` shows,
  over every callback that does not return nil, that the store stays as it was exactly for those that leave the commit to
  `Execute`; over every callback whatsoever, the same condition decides whether each call that does not return nil
  leaves the store as it was. There are two ways not to leave the commit to `Execute`. A callback can commit writes by
  itself, which are then in the store whatever it returns (`Tx.CommitBeforeErrorStays`). And it can end its goroutine
  with `runtime.Goexit` while the transaction holds writes: it returns nothing, yet the deferred function finds no panic
  and a nil error, and commits (`Tx.ExitAfterWriteCommits`).
* `database/tx.go` and `database/README.md` describe the error of a failed rollback as additional context. For
  `errors.Is` that is always so. For `TypeOf` it is so except in one case, which `Tx.RollbackKeepsCause` states as an
  equivalence and `Tx.TypedRollbackErrorTakesOver` shows: an untyped callback error joined with a rollback error whose
  own type is not internal. No code of the repository makes such a rollback error: its typed errors come from the
  repositories, the profile service, the health check and the token verifier, so the case needs a driver that is wrapped
  to return one.
* `pkg/oidcx/verify.go` separates a credential that was refused from one that could not be checked, and `api/README.md`
  promises 503 for the provider's outages and 401 for refusals. The code has to tell them apart by the error that
  go-oidc returns, partly by its text, and a refusal that quotes the token shows the text of an outage when the token
  contains it: a token for the audience `fetching keys` is refused and answered with 503
  (`Guard.RefusalAnsweredAsOutage`). `Guard.OutageIs503Iff` shows that 503 stands for an outage exactly when, for every
  token a header can present, no error of a refusal shows one of these signs and every error of an outage does.
* `Requirements.String` is documented as a rendering for a log line. Among requirements with clean names it is
  unambiguous. Among all requirements, `RequirementsText.RenderIdentifiesIff` shows which ones it identifies: those with
  at most one name, in their last alternative, that does not itself read as more than one.
  `RequirementsText.NameIsAmbiguousIff` spells this out for one name.

## Model

| member | source | states |
|---|---|---|
| Requirements.AllOf | pkg/authx/requirements.go:70-93 | the triple loop returns one alternative for every choice of a term from each argument, at the mixed-radix place of the choice, being the ordered concatenation of the chosen names; an empty argument empties the result |
| Requirements.CrossInto | pkg/authx/requirements.go:80-89 | the two inner loops fill a header buffer of capacity len(out)*len(r) exactly, so no append grows it and no cell is spare, with the cross product in order |
| Requirements.AnyOf | pkg/authx/requirements.go:52-59 | the alternatives of all arguments, in order |
| Requirements.SatisfiedOne | pkg/authx/requirements.go:106-120 | true exactly when every scope and every role of the conjunction is held |
| Requirements.Satisfied | pkg/authx/requirements.go:96-104 | true exactly when some alternative holds |
| Requirements.ConjunctionIsProduct | pkg/authx/requirements.go:70-93 | the left-to-right cross product has exactly the product of the lengths as its length and every choice at its place |
| Requirements.ProductIsUnique | pkg/authx/requirements.go:70-93 | that description determines the list, so AllOf has no freedom |
| Requirements.PlacesAreChoices | pkg/authx/requirements.go:64-67 | every index of the result is the place of a choice |
| Requirements.ChoicesArePlaces | pkg/authx/requirements.go:64-67 | every choice has a place, and different choices have different ones |
| Requirements.CrossAssociative | pkg/authx/requirements.go:80-89 | crossing is associative, value for value and in order |
| Requirements.NestedAllOfFlattens | pkg/authx/requirements.go:70-93 | AllOf of nested AllOfs equals AllOf of the flattened list, with the same alternatives in the same order, empty groups included |
| Requirements.MeetsConjunction | pkg/authx/requirements.go:61-69 | AllOf is satisfied exactly when all its arguments are, none of them included |
| Requirements.MeetsDisjunction | pkg/authx/requirements.go:51-59 | AnyOf is satisfied exactly when one of its arguments is |
| Requirements.CompilePreservesMeaning | pkg/authx/requirements.go:14-49 | for every identity and nesting depth, the normal form of a rule is satisfied exactly when the rule read with and, or and membership is |
| Requirements.EmptyIffUnsatisfiable | pkg/authx/requirements.go:21-27 | a requirement is empty exactly when no identity satisfies it |
| Requirements.EmptinessOfCombinators | pkg/authx/requirements.go:52-93 | AllOf is empty exactly when an argument is, AnyOf exactly when all are |
| Requirements.MeetsIsMonotone | pkg/authx/requirements.go:96-120 | more scopes and roles never lose access |
| Requirements.OpenApi | pkg/authx/requirements.go:131-147 | nil exactly for the empty requirement, otherwise one entry per alternative holding exactly its scopes |
| RequirementsText.String | pkg/authx/requirements.go:150-173 | the nested loops build the rendering that the next rows are about |
| RequirementsText.ReadOfRendered | pkg/authx/requirements.go:150-173 | a rendering can be read back to the same list when no name holds a plus sign or a space, including the any-token and the unsatisfiable case |
| RequirementsText.RenderIsUnambiguous | pkg/authx/requirements.go:150-173 | two such requirements that render alike are equal |
| RequirementsText.RenderIdentifiesIff | pkg/authx/requirements.go:150-173 | for every requirement, no other one has its rendering exactly when it has at most one name, in its last alternative, that does not read as more than one |
| RequirementsText.NameIsAmbiguousIff | pkg/authx/requirements.go:150-173 | a single scope shares its rendering with another requirement exactly when its name contains `+scope:`, `+role:`, ` or scope:` or ` or role:` or ends in ` or authenticated`; a single role exactly for the same texts without `+scope:` |
| RequirementsText.CleanRenderingsAreShared | pkg/authx/requirements.go:150-173 | names free of these two characters are not enough if the other requirement may have any name: two clean scopes, a scope and a role, or two roles of one alternative, and two alternatives of one clean scope each, render as one name would |
| RequirementsHeap.Concat | pkg/authx/requirements.go:175-187 | a new array of exactly the needed length with a then b, so no append reallocates and no spare cell is left |
| RequirementsHeap.AllOf | pkg/authx/requirements.go:70-93 | on shared backing arrays the result denotes the same product and has as many headers, all its arrays are new, each belongs to one alternative, and no existing array is written |
| RequirementsHeap.SeparatePairs | pkg/authx/requirements.go:175-177 | pair by pair: two alternatives share no array, nor do the scopes and roles of one |
| RequirementsHeap.Overwrite | pkg/authx/requirements_test.go:127-139 | writing any one scope or role name of one alternative changes that name and nothing else in the list |
| RequirementsHeap.DeriveAndOverwrite | pkg/authx/requirements_test.go:127-139 | writing any one scope or role name of a derived alternative reaches neither another alternative nor any argument, for all arguments |
| Claims.LookupClaim | pkg/oidcx/claims.go:17-39 | the loop over segments equals recursive descent, after the top-level key |
| Claims.LookupFindsExactly | pkg/oidcx/claims.go:8-39 | a value is found exactly when the name is a top-level key, which wins, or a chain of objects leads along the split path to it |
| Claims.NestedClaimIsFound | pkg/oidcx/claims.go:8-39 | the dotted name of dot-free segments reaches exactly the leaf nested below them |
| Text.JoinOfSplit | pkg/oidcx/claims.go:27 | the parts of a name hold no separator and join back to the name, which with Text.SplitOfJoin leaves Split no freedom |
| Claims.ClaimList | pkg/oidcx/claims.go:48-74 | the loop and type switch read the names that the next rows describe, none for a claim that is absent, a scalar or an object |
| Claims.NamesAreSpelled | pkg/oidcx/claims.go:48-74 | no names for an absent claim, a scalar or an object; otherwise exactly the fields of a text, the elements of a typed array or the non-empty texts of an array |
| Text.FieldsWithoutSpace | pkg/oidcx/claims.go:56 | a text without white space is one field, and the empty text none |
| Text.FieldsAtSpace | pkg/oidcx/claims.go:56 | a text is read on either side of any white space by itself, which with Text.FieldsWithoutSpace leaves Fields no freedom |
| Claims.SpellingsAgree | pkg/oidcx/claims.go:41-74 | non-empty words without white space come back alike from a space-joined text, a JSON array and a typed array |
| Claims.TextsOfFilters | pkg/oidcx/claims.go:61-69 | a JSON array yields its non-empty texts and nothing else, in order |
| Claims.NamesAreClean | pkg/oidcx/claims.go:54-73 | names from a text are non-empty and free of white space, those from a JSON array non-empty, a typed array is taken as it is |
| Verify.Verify | pkg/oidcx/verify.go:48-88 | the imperative checks in their order give the verdict that the next rows describe |
| Verify.VerifyIsExact | pkg/oidcx/verify.go:41-88 | a token is accepted exactly when every check passes, then with a non-empty subject; a refusal has no identity and is unavailable when the check failed with an error that shows an outage, unauthorized otherwise |
| Verify.RefusalKeepsReason | pkg/oidcx/verify.go:48-75 | a refusal for a library error answers errors.Is exactly as that error does and its message contains every text of it |
| Verify.RefusalNamesReason | pkg/oidcx/verify.go:62-80 | a refusal by an own check names the claim that marks an ID token, the type that is not an access token's, or the missing subject |
| Verify.ClassifyGoesBySigns | pkg/oidcx/verify.go:123-165 | unavailable exactly for a net.Error or an exceeded deadline anywhere in the tree or a key-set message in the text |
| Verify.UnavailableMeansUncheckedIff | pkg/oidcx/verify.go:142-149 | unavailable says that the token could not be checked, as opposed to refused, exactly when the error of the failed check shows the one and not the other |
| Verify.RefusalCanShowOutage | pkg/oidcx/verify.go:123-140 | every refusal, whatever its error tree, whose message contains one of the two texts shows an outage, so the two are not told apart by every error |
| Verify.TypeProblemIffUntyped | pkg/oidcx/verify.go:96-121 | no complaint exactly for a JWT whose typ header is one of the two of section 4 of RFC 9068 with each ASCII letter a capital or not |
| Verify.SpellingDoesNotMatter | pkg/oidcx/verify.go:82-87 | every requirement decides alike on two tokens that spell the same names in different ways and places |
| Verify.IdentityShowsToken | pkg/oidcx/verify.go:82-87 | the identity has the token's subject and claims and exactly the names that the two configured claims spell |
| Verify.MissingClaimsGrantNothing | pkg/oidcx/claims.go:43-52 | a token without the configured claims has no scopes and no roles and is admitted only where an alternative names none of that kind, with neither claim exactly where the unconstrained alternative is |
| Discovery.Discover | pkg/oidcx/oidcx.go:109-125 | terminates after at most floor(timeout / 500 ms) + 1 attempts; returns a provider exactly when an attempt that takes place finds one, else the last failure wrapped once the context is done |
| Discovery.AttemptsAreBounded | pkg/oidcx/oidcx.go:27-36 | no attempt beyond that number can begin in time |
| Discovery.ContextDecides | pkg/oidcx/oidcx.go:109-125 | an attempt begins neither after the deadline nor after a cancellation, and does begin when its back-off ends before both |
| Discovery.DiscoveryErrorTells | pkg/oidcx/oidcx.go:127-132 | the message determines the issuer and the last failure's message, quoting and escapes included, and holds an issuer that needs no escape as it is; the error answers errors.Is and TypeOf as the last failure does |
| Text.QuotedIsReadable | pkg/oidcx/oidcx.go:131 | a text quoted by `%q` can be read back, whatever follows it |
| Discovery.Init | pkg/oidcx/oidcx.go:61-106 | no verifier and no error exactly when disabled; an error that names the setting, no verifier and no attempts for a missing issuer or audience; at most one attempt and one for each whole 500 ms of a positive timeout, and at most 21 in ten seconds otherwise |
| Guard.BearerTokenInvertsFormation | api/auth.go:182-196 | a header is read as a token exactly when it is the scheme with each letter a capital or not, padding, that trimmed non-empty token, padding; otherwise absent and empty (section 2.1 of RFC 7235) |
| Guard.LowerCaseSchemeIsRead | api/auth_test.go:87 | `bearer abc` is read as the token `abc` |
| Text.EqualFoldIffCase | api/auth.go:189 | two texts are folded together exactly when at every place they agree or one has the capital of the other's ASCII letter |
| Text.SpacesByCodePoint | api/auth.go:193 | what is trimmed is the white space of Unicode, by code point |
| Guard.Guard.Middleware | api/auth.go:115-145 | exactly one of: the next handler called once with the identity in its context, or one error response with one log record, and the challenge header exactly on 401 (section 3.1 of RFC 7235) |
| Authx.NewContextAddsIdentity | pkg/authx/context.go:12-15 | the handler's context yields the identity and every other value that was there |
| Guard.Guard.DenyRequest | api/auth.go:159-180 | one response in the generic wording of its type, one record, a challenge exactly on 401 |
| Guard.GuardIsExact | api/auth.go:110-145 | with the own verifier: 401 without a token, 503 exactly for a check that failed with the signs of an outage, 403 exactly for an accepted token that does not suffice, the handler exactly for the entitled with a non-empty subject, never 500 |
| Guard.CredentialStaysOut | api/auth.go:154 | response and record depend on the presented token through the verifier's answer alone |
| Guard.MalformedHeaderStaysOut | api/auth.go:117-121 | all headers without a token are decided alike, with 401, whatever they hold |
| Guard.DenialTellsWhy | api/auth.go:123-141 | the record of a rejected token holds every text of the verifier's error; that of an unmet requirement holds the subject and a text from which the requirement can be read back |
| Guard.OutageIs503Iff | api/README.md:235-236 | over all requests, 503 means a token that could not be checked exactly when every presentable token's failed check shows an outage if there was one and none if it was refused |
| Guard.RefusalAnsweredAsOutage | api/README.md:236 | a token refused for its audience `fetching keys` is answered with 503 although it was checked |
| Guard.UntypedErrorFailsClosed | api/auth.go:125-131 | a verifier error without a type is answered with 500, whatever identity came with it |
| Guard.EmptyRequirementRefusesEveryone | api/auth.go:80-87 | an empty requirement behind a guard admits no one, whatever the verifier says |
| Guard.Secured | api/auth.go:67-108 | documented and enforced together from one requirement; an operation that starts bare documents security exactly when it enforces some, also for an empty requirement |
| Guard.DocumentNeverOverstates | pkg/authx/requirements.go:122-130 | whoever meets the requirement satisfies a documented alternative |
| Guard.DocumentIsCompleteIff | pkg/authx/requirements.go:122-130 | whoever satisfies a documented alternative meets the requirement, for all identities, exactly when every alternative is implied by one that names no role |
| ErrorX.FindIsFirstInPreOrder | pkg/errorx/error.go:34-48 | the search of errors.Is and errors.As returns the first accepted node in pre-order |
| ErrorX.FoundIffOccurs | pkg/errorx/error.go:34-38 | it finds something exactly when an accepted node occurs anywhere |
| ErrorX.TypeOfIsFirstTypedNode | pkg/errorx/error.go:40-48 | TypeOf is the type of the first typed node, internal when there is none |
| ErrorX.SearchesMean | pkg/errorx/error.go:34-48 | what the three searches look for, said of the nodes of the tree without the search |
| ErrorX.MessageTellsAll | pkg/errorx/error.go:26-48 | the message contains every text that any layer put in, through wraps, types and joins |
| ErrorPath.RewrapsKeepTypeAndCause | internal/profile/service.go:25-85 | any number of service-style re-wraps keeps the type and everything errors.Is finds |
| ErrorPath.StatusDecidedByDriverTree | database/repositories/errors.go:13-32 | through any number of layers the status is 404 if no-rows occurs anywhere in the driver's tree, else 503 if a deadline or cancellation does, else 500 |
| ErrorPath.LogKeepsDriverError | database/repositories/errors.go:13-32 | through any number of layers the logged error answers errors.Is exactly as the driver's tree does and contains every text of it |
| ErrorPath.ZeroRowsIsNotFound | database/repositories/errors.go:34-40 | the error of a delete without a row is a 404 through any number of layers |
| ErrorPath.NotFoundTells | database/repositories/errors.go:34-40 | the error names the entity and the id, and different ids give different messages |
| ErrorPath.ResponseOfType | api/errors.go:17-46 | status and wording of every error type, an undeclared one as internal, no response for nil |
| ErrorPath.ResponseHidesReason | api/errors.go:12-46 | any two errors answered with the same status are answered with the same message |
| Tx.Pool.Execute | database/tx.go:37-66 | with the named result, the recovery and the deferred choice, the new state and the outcome are those that the lemmas on Executed describe: what is stored, what is returned of every failure, what is logged |
| Tx.Pool.Begin | database/tx.go:27-29 | a transaction on a connection of its own, or the error and no connection |
| Tx.Pool.RollbackErr | database/tx.go:68-74 | rolls back and reports a failure unless the transaction was already closed |
| Tx.Pool.RollbackAndLog | database/tx.go:76-81 | rolls back and logs such a failure |
| Tx.RollbackFailureTells | database/tx.go:68-74 | a failure is reported exactly when the driver's error does not say that the transaction was closed, and the report holds everything to be found in that error and its texts |
| Tx.ExecuteIsAtomic | database/tx.go:31-66 | for every callback the store keeps all writes in order or none, all of them exactly when the manager's own commit succeeds; a callback that closes the transaction keeps what it committed by itself |
| Tx.NilMeansCommitted | database/tx.go:34-36 | nil is returned exactly when the callback returned nil and never closed the transaction and begin and commit succeeded; then all its writes are stored; what a callback commits by itself stays, but is never reported as nil |
| Tx.RollsBackUnlessNilIff | database/tx.go:31-32 | a call that does not return nil leaves every store as it was, exactly for callbacks that neither commit writes by themselves nor exit their goroutine on an open transaction with writes; and among callbacks that do not return nil the store always stays as it was exactly for these |
| Tx.RunKeepsWhatCallsKeep | database/tx.go:37-66 | over any run of any callbacks, the final store is the initial one with, call by call, what the callback committed by itself if it closed the transaction, else all its writes if the manager committed, else none |
| Tx.ExitAfterWriteCommits | database/tx.go:43-62 | a write followed by runtime.Goexit is committed although the call returns nothing |
| Tx.CommitBeforeErrorStays | database/tx.go:43-65 | a write that the callback commits by itself stays although the call returns the callback's error |
| Tx.BeginIsEndedOnce | database/tx.go:37-66 | every successful begin is followed by exactly one terminating call of the manager, last of all, a commit exactly when the callback returned nil or exited, else a rollback, and its connection is back; nothing follows a failed begin |
| Tx.PanicIsRethrown | database/tx.go:44-48 | exactly the panics come out as panics, with their value; exactly after a panic whose rollback fails one entry is logged, in which everything in the driver's error is found and said; else nothing is logged |
| Tx.RollbackKeepsCause | database/tx.go:50-57 | everything to be found in the callback's error and, if the rollback fails, in the driver's error is found in the result, whose message says both; without such a failure the result is the callback's error; when exactly the type of the result is the callback error's |
| Tx.FailuresAreTold | database/tx.go:38-61 | what is found in the error of a failed begin or commit is found in the result, with the same type and every text; nil from a callback that closed the transaction becomes an error that says exactly that |
| Tx.TypedRollbackErrorTakesOver | database/tx.go:50-57 | an untyped callback error joined with a rollback error of type unavailable is of type unavailable |
| Tx.ClosedTransactionIsBenign | database/tx.go:68-74 | rolling back a transaction the callback closed, by commit or rollback, changes no error and logs nothing |
| Tx.RunKeepsAcknowledgedWrites | database/tx.go:37-66 | over any run of callbacks that leave the commit to Execute, the final store is the initial one with exactly the writes of the calls that returned nil, in order |
| Tx.RunConservesConnections | database/tx.go:37-81 | over any run, whatever callbacks do, connections are conserved and the trace is one bracket of begin and end per call |
| Profiles.Repository.GetById | database/repositories/profile_repository.go:35-48 | a new object with the scanned row, or the classified error and no object |
| Profiles.Repository.Create | database/repositories/profile_repository.go:50-59 | the object passed in comes back with what the INSERT returned, or stays as it was beside the classified error |
| Profiles.Repository.Update | database/repositories/profile_repository.go:61-70 | the same for the UPDATE |
| Profiles.Repository.DeleteById | database/repositories/profile_repository.go:72-84 | nil exactly when the statement reported a deleted row, a not-found error when it reported none |
| Profiles.Response.FromModel | internal/profile/response.go:15-22 | every field of the profile, in its place |
| Profiles.Service.GetById | internal/profile/service.go:25-37 | the reply of the service step: response object or re-wrapped error |
| Profiles.Service.Create | internal/profile/service.go:39-55 | the reply of the service step for a create |
| Profiles.Service.Update | internal/profile/service.go:57-73 | the reply of the service step for an update |
| Profiles.Service.DeleteById | internal/profile/service.go:75-85 | true exactly when the statement reported a deleted row, false beside the re-wrapped error |
| Profiles.StepKeepsTable | database/repositories/sql/profile_update.sql:1-7 | each request keeps created_at <= updated_at <= now and names of 1 to 255 characters, changes no row it does not name, never changes created_at, and removes a row only as a DELETE naming it |
| Profiles.NewRowWasAsked | database/repositories/sql/profile_insert.sql:1-3 | a row that is new or differs after a request holds the names of that create or update, faults included |
| Profiles.RepliesShowRows | internal/profile/response.go:15-22 | a profile in a reply is the stored row with its canonical id, with the requested names and the time stamps of the statement |
| Profiles.StatusOfFailure | api/errors.go:52-65 | the status of a failed statement is decided by the driver's error tree alone |
| Profiles.FaultDecidesStatus | database/repositories/profile_repository.go:35-76 | a statement failed by server or network is answered with the status of that fault's own tree, and the logged error keeps the fault and says what failed |
| Profiles.MissingDeleteTells | database/repositories/profile_repository.go:78-81 | the error of a delete of a missing row names the profile and its id |
| Profiles.StatusWithoutFaults | api/operations.go:119-178 | 404 exactly for a missing row, 500 for an unreadable id, an invalid name or a colliding id, otherwise success with 201 for a create, 204 for a delete, 200 for a read or an update |
| Profiles.MissingRowChangesNothing | database/repositories/profile_repository.go:61-84 | update or delete of a missing id leaves the rows unchanged, whatever faults occur |
| Profiles.DeletedIsGone | database/repositories/profile_repository.go:72-84 | a successful delete removed the named row and no other, and the next read of it is a 404 |
| Profiles.FailureChangesNothing | database/repositories/profile_repository.go:50-84 | a failed request changed nothing unless a fault hid that its statement took place |
| Profiles.RunStaysSound | database/repositories/sql/profile_insert.sql:1-3 | created_at <= updated_at <= now in every reachable state |
| Profiles.RunKeepsRow | database/repositories/sql/profile_update.sql:1-7 | over any run a row stays as it is if every update or delete naming it fails without effect, and a row that stays keeps its created_at |
| Profiles.ReadsSeeTheLastWrite | internal/profile/service.go:25-73 | what a create or update answered is what any later read of that row answers, under every spelling of the id, as long as every other request that names the row in order to change it fails without effect |
| Operations.RuleAllows | api/operations.go:119-178 | the requirement of each operation asks for exactly its scope and, for deletion, the role |
| Operations.AdmittedIffAuthorized | api/operations.go:119-178 | the service runs for a request exactly when its token checks out and its caller holds what the operation asks for |
| Operations.ServeIsExact | api/operations.go:119-178 | 401 without a token, 503 or 401 for a failed check with or without the signs of an outage, 401 for any other token not in order, 403 for a caller without the scope or role, all without touching the table; everyone else gets what the service does and its status |
| Operations.ChangesNeedAuthority | api/operations.go:119-178 | over any run of requests, tokens and faults, row by row: a row that changed or is gone was named by an update or delete of a caller who held the scope; one that is gone was deleted by name by a caller who held the role as well; one that is new was created under that id by a caller who held the scope; one that is new or differs holds the names that such a caller asked for |

## Left out

- Texts are sequences of Unicode code points; bytes that are not valid UTF-8 are not modelled.
- Text.EqualFold: folds ASCII letters only, which is exact here because the texts compared with (`Bearer `, `at+jwt`, `application/at+jwt`) hold no k and no s, the two ASCII letters with folding partners outside ASCII.
- Text.Quoted: characters beyond U+00FF all count as printable, so those that `%q` escapes differ from the real message.
- RequirementsHeap.AllOf: only the arrays of names are on the heap; the slice of headers is a value there (Requirements.CrossInto has it as a buffer of the exact capacity), and a nil list is a window on an array without cells. AnyOf copies headers and so shares arrays with its arguments; it is modelled over values alone.
- ErrorX.Find: an error's own Is method is modelled as the set of sentinels a library node answers to; a nil inside a wrap is not modelled.
- Verify.Verify: signature, issuer, audience, expiry, base64 and JSON decoding are go-oidc's and the standard library's; their answers are parameters, and so is whether a failed check was a refusal or an outage.
- Authx.IdentityReachesHandler: that a handler reads the identity the guard stored is kept as a helper without a row, because the unexported key of the identity is modelled as a constructor of its own, so that no other value can collide with it.
- Discovery.Discover: the clock is idealised, a timer fires at its instant and each provider call returns after some finite time; the verifier configuration of go-oidc is not part of this model.
- Guard.Guard.Middleware: what the next handler writes and the rendering of error bodies by huma are not modelled. The guard itself logs no credential, but an error of the verifier that quotes the token is logged as it is.
- Tx.Pool.Execute: transactions run one at a time; a failed COMMIT or ROLLBACK applies nothing, the first of either closes the transaction and gives the connection back, as in pgx; savepoints and panics inside the driver are not modelled.
- Profiles.Database.Execute: Postgres is a serial map store with uuid parsing and formatting as parameters, a clock that never goes back and one row per id; time zones and a Scan that fails halfway are not modelled.
- Operations.Serve: request validation and decoding by huma (422 responses) happen before and are not modelled.
- Access log, recoverer, tracing, metrics, CORS, rate limits, body limits, configuration, migrations, health checks, router wiring and the command line: plumbing around libraries that would add only easy members.
