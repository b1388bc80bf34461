# ops-ai: verified models of its stateful cores

A Dafny model of the parts of ops-ai whose correctness spans many calls: what a terminal guard lets through, who
holds a deployment lock, what a configuration merge and a rendered command mean, whether secrets survive a key
rotation, and what runs of logins, approvals, connections and deletions keep. Each module follows one source file.
Code that changes things step by step is a class or a loop, proved to have the effect of a specification function;
the properties are then proved of that function, over all inputs and all runs.

| module | source | subject |
|---|---|---|
| `CommandSecurity` | `app/core/command_security.py` | command validation and the terminal input guard, simulated against a remote line editor |
| `DeployLock` | `app/core/deploy_lock.py` | the lock table with its TTL, and its concurrent holders |
| `DeploymentLocks`, `DeploymentRace` | `app/deploy/locks.py` | taking several locks with rollback, alone and in a race |
| `Systems`, `SystemStore` | `app/config/systems.py` | deep merge, service overrides and provenance; saving and reading systems |
| `Templates`, `ShellTokens` | `config_manager.py` | placeholder rendering, quoting and the tokens a shell sees |
| `EnvFiles` | `scripts/matrix_login.py`, `scripts/rotate_secrets.py` | reading and rewriting `.env` files |
| `RotateSecrets` | `scripts/rotate_secrets.py` | key rotation with its crash points |
| `LoginLimiter`, `SessionTokens` | `app/api/auth_v2.py`, `app/core/auth_v2.py` | the failed-login window; session tokens and password resets |
| `TemporaryApprovals` | `app/api/temporary_approvals.py` | the life of approval grants |
| `SftpPaths` | `app/api/sftp.py` | path normalisation, allowed roots and upload targets |
| `SshPool` | `ssh_client.py` | the connection pool and its keys |
| `History` | `app/deploy/history.py` | deleting deployments one by one and in batches |
| `PyText` | | the Python string operations the others share |

## How the world is modelled

- Regular expressions are arbitrary predicates with their descriptions, so the guard's theorems hold for any tables;
  those that replay warnings ask for printable descriptions, as all of the source's are.
- The remote terminal appends text, erases on backspace, clears on Ctrl+C and Ctrl+U, executes on CR and LF, and
  ignores every other control character, ESC included. The guard's warnings travel in the same stream, so the
  remote runs them as lines too, and the theorems say so.
- Each block under a mutex is one atomic step; clock readings are inputs. A disciplined lock holder refreshes or
  releases within the TTL and touches only keys it acquired.
- Shell tokens follow sections 2.2.1 to 2.2.3 and 2.3 of the POSIX.1-2017 Shell Command Language, and section 2.6 for
  where an expansion ends. They are a sequence of marks in which the expansions of a word, and the tokens of the
  commands in them, stand between an opening and a closing mark. Expansions nest to any depth, bare or in double
  quotes; each enclosing pair of backquotes decodes the backslashes of what is inside. What the standard calls
  undefined, such as a backquote in a quoted string in backquotes, gives no tokens; nor does a here-document with a
  body, which is not read. `shlex.quote`,
  `posixpath.normpath`, `str.strip` and `str.splitlines` are modelled by their documented algorithms; `\w`, upper
  and lower case are arbitrary functions.
- Encryption is abstract: decrypting under the key that encrypted gives the plaintext back. During a rotation a file
  being written may be left in any state by a crash; the database transaction is atomic.
- Tables are maps from keys to rows and a commit is one assignment. Whether the connection attempt, the transport
  check, closing, or a swallowed database call works is an input.

## What the code does that one might not expect

- The merge is not associative: it fails exactly where a path holds a dictionary, a non-dictionary and a dictionary
  and the third does not absorb the first (`Systems.AssociatesByPath`, `Systems.NotAssociative`).
- Quoting a value does not make it opaque everywhere (`Templates.BareRenderingCommutesIff`): one that needs no quotes
  and starts with a dash turns a preceding `<<` into `<<-`, one that starts with a letter lengthens a preceding
  `$name`, and in backquotes one loses backslashes or ends the substitution (`Templates.BackquotesTakeIff`).
  Inside single quotes, where templates of the repository put placeholders, any value that needs quotes leaves them
  (`Templates.SingleQuotesTakeIff`), and inside double quotes it brings quotes along (`ShellTokens.DoubleTakesIff`).
- Rotation announces that an empty old key means encrypting the stored plaintext with the new key, but then collects
  no rows (`RotateSecrets.CompletedRotationMigratesIff`). A variable of the process shadows `.env`
  (`RotateSecrets.UnshadowedKeyYields`), a second binding of the key shadows the rewritten one
  (`EnvFiles.WrittenValueIsRead`), and without a `.env` file, or with one that is not valid UTF-8, which the tolerant
  reader accepts, the run stops only after the database was committed (outcomes `NoEnvFile` and `UndecodableEnv` of
  `RotateSecrets.Host.RotateOpsKey`).
- A line whose key is empty is never retired (`EnvFiles.UpdateIsMapUpdate`).
- A request that names a server twice conflicts with itself (`DeploymentLocks.DuplicateServerConflicts`), and names
  with colons collide exactly when their key can be cut in two ways (`DeploymentLocks.SharesKeyIff`).
- A lock holder past the TTL can be joined by another (`DeployLock.SecondHolderIffOverdue`).
- Users with a pipe in their name get tokens that never verify (`SessionTokens.CreatedTokenVerifiesIff`).
- A scope with a colon in some field shares its scope key with another (`TemporaryApprovals.SharesScopeKeyIff`), and
  while both are approved a confirmation ends in a database error (`TemporaryApprovals.IntegrityErrorIffCollision`).
- The root `//` acts like `/` (`SftpPaths.DoubleSlashRootAcceptsAll`).
- Pool keys ignore unresolved jump host names that the connection still uses (`SshPool.UnresolvedHopsShareKeys`).
- Past the line limit the guard drops the line typed so far, and the rest of it can be run as a command of its own
  (`CommandSecurity.TailIsRun`), if it is permitted (`CommandSecurity.GuardIsAFilter`).
- A service-level `message_routing` is read but dropped when saved back (`SystemStore.SavingBackIsNeutralIff`).
- Logs of a deleted task with the empty id stay behind (`History.OrphanIff`).

## Model

| member | source | states |
|---|---|---|
| CommandSecurity.FirstMatch | app/core/command_security.py:39-52 | answers with the description of the first matching pattern: none exactly when no pattern matches |
| CommandSecurity.ValidateCommand | app/core/command_security.py:35-54 | a command is allowed exactly when it is not blank and no injection or blocked pattern matches; it is dangerous exactly when it is allowed and a dangerous pattern matches, and safe exactly when there is no reason |
| CommandSecurity.VerdictIsFirstHit | app/core/command_security.py:36-54 | the stage order: the reason is that of the first hit among injection, blocked and dangerous patterns taken as one table; blank commands are empty, other refused ones blocked |
| CommandSecurity.ReasonIs | app/core/command_security.py:36-54 | the reason names the stage and describes its first pattern that matches; no reason exactly when none does |
| CommandSecurity.FirstMatchIsLeast | app/core/command_security.py:39-52 | first means least: the description at the least index whose pattern matches |
| CommandSecurity.IsDangerousCommand | app/core/command_security.py:57-59 | a command counts as dangerous exactly when it is not blank and some pattern of the three tables matches |
| CommandSecurity.TerminalInputGuard.constructor | app/core/command_security.py:92-95 | the guard starts with an empty line |
| CommandSecurity.TerminalInputGuard.Reset | app/core/command_security.py:101-102 | only the line is forgotten |
| CommandSecurity.TerminalInputGuard.FeedChar | app/core/command_security.py:113-167 | the character loop body has the effect of the specification step, which EnterReportsIff, EnterReports and OtherKeys describe key by key, on line, output and events |
| CommandSecurity.TerminalInputGuard.FeedText | app/core/command_security.py:104-169 | the whole call leaves the line, output and events of the specification run from the line it started with |
| CommandSecurity.FeedKeepsLimit | app/core/command_security.py:155-164 | the line never grows beyond the limit |
| CommandSecurity.EnterReportsIff | app/core/command_security.py:132-153 | on Enter an event is reported exactly when the line is not blank and a pattern matches it: an injection or blocked one, or a dangerous one when those are blocked; otherwise the key goes out as typed, and either way the line is cleared |
| CommandSecurity.EnterReports | app/core/command_security.py:139-149 | that event has the stripped line, the reason of the first pattern hit, and the level blocked when an injection or blocked pattern matches, else dangerous; its warning goes out in place of the key |
| CommandSecurity.OtherKeys | app/core/command_security.py:113-167 | every other key by itself: DEL and backspace erase, Ctrl+C and Ctrl+U clear, tab and printable keys are typed up to the limit and reported past it with the first 120 characters, and no other matters |
| CommandSecurity.WarningReads | app/core/command_security.py:146-147 | the warning as it goes out: Ctrl+U, and a line of its own with level and reason |
| CommandSecurity.LongLineReads | app/core/command_security.py:160-163 | the event and warning of a line past the limit |
| CommandSecurity.FeedAppend | app/core/command_security.py:104-169 | feeding s and then t gives the same line, concatenated output and concatenated events as feeding s + t |
| CommandSecurity.ChunkingIsIrrelevant | app/core/command_security.py:104-169 | a session gives the same result however the text was cut into messages |
| CommandSecurity.OutputIsInputUpToWarnings | app/core/command_security.py:113-169 | the output is the input with exactly one character per event replaced by that event's warning, in order |
| CommandSecurity.UnchangedIffNoEvents | app/core/command_security.py:113-169 | the output equals the input exactly when no event was reported |
| CommandSecurity.ReplayWarning | app/core/command_security.py:146-148 | the remote clears its line, runs the warning as a line between empty ones and is left with an empty line |
| CommandSecurity.StepSimulates | app/core/command_security.py:113-167 | one character keeps the remote line equal to the guard's, and makes the remote run exactly the lines the step accounts for |
| CommandSecurity.GuardSimulatesRemote | app/core/command_security.py:104-169 | replaying the output through the line discipline leaves the remote with the guard's line; every line it ran is blank, was let through by the check, or is one of the guard's warnings |
| CommandSecurity.SessionIsSafe | app/api/terminal.py:278-290 | the same for every session of any messages, with the line limit, from an empty line |
| CommandSecurity.SessionRunsOnlyWhatMayRun | app/api/terminal.py:278-290 | whatever a session types, no line the remote runs, blank ones and warnings of reported events aside, has a match among the injection or blocked patterns, nor, when those are blocked, among the dangerous ones |
| CommandSecurity.GuardIsAFilter | app/core/command_security.py:104-169 | for any input, the commands run behind the guard are, in order, exactly the permitted ones among those the remote would run if each key past the line limit cleared the line instead |
| CommandSecurity.PermittedMayRun | app/core/command_security.py:139-141 | permitted means just that: no such match |
| CommandSecurity.ShortenedIff | app/core/command_security.py:156-163 | input has such a key exactly when, typed without a guard, its line passes the limit |
| CommandSecurity.WithinTheLimitOnlyAFilter | app/core/command_security.py:104-169 | within the limit the commands run are exactly the permitted ones among those run without the guard, permitted as in PermittedMayRun |
| CommandSecurity.TailIsRun | app/core/command_security.py:156-163 | of a typed line that passes the limit, the tail after the key that passed it is what Enter submits |
| DeployLock.LockTable.DropExpired | app/core/deploy_lock.py:20-27 | exactly the entries older than the TTL go, from both dictionaries |
| DeployLock.LockTable.Acquire | app/core/deploy_lock.py:16-34 | purges, then takes the key exactly when it is not held; and it is the step that the runs below are made of |
| DeployLock.LockTable.Free | app/core/deploy_lock.py:37-41 | the key is in neither dictionary, all else unchanged; and it is the step that the runs below are made of |
| DeployLock.LockTable.Touch | app/core/deploy_lock.py:44-47 | only a held key gets a new time stamp; and it is the step that the runs below are made of |
| DeployLock.LockTable.IsLocked | app/core/deploy_lock.py:50-58 | answer and table of the specification, including dropping the expired entry it finds; and it is the step that the runs below are made of |
| DeployLock.LockTable.ListLocked | app/core/deploy_lock.py:61-71 | the keys left after purging; and it is the step that the runs below are made of |
| DeployLock.LiveIff | app/core/deploy_lock.py:18-27 | an entry is live for 3600 seconds after its stamp, that second included |
| DeployLock.AcquiredIff | app/core/deploy_lock.py:18-34 | acquiring wins exactly what is not live; afterwards the table has the live entries and the key, which is stamped now exactly when it was won |
| DeployLock.CheckedIff | app/core/deploy_lock.py:50-58 | the answer on any table; a held key without a stamp counts as stamped at 0 |
| DeployLock.CheckLockedIsLive | app/core/deploy_lock.py:50-58 | on consistent tables the answer is whether the entry is live, and no entry's liveness is affected |
| DeployLock.DictionariesAgree | app/core/deploy_lock.py:16-71 | the two dictionaries have the same keys after any sequence of steps by anybody |
| DeployLock.StepIsSafe | app/core/deploy_lock.py:16-71 | each disciplined step keeps one holder per key, each backed by an entry with its own time stamp |
| DeployLock.NoKeyHasTwoHolders | app/core/deploy_lock.py:16-47 | over every interleaving of disciplined holders no key ever has two |
| DeployLock.DisciplinedRunsAreSafe | app/core/deploy_lock.py:16-47 | the same from the empty table, with every holder's lock in the table |
| DeployLock.SecondHolderIffOverdue | app/core/deploy_lock.py:18-34 | an acquisition gives a key a second holder exactly when somebody else has held it past the TTL |
| DeploymentLocks.KeysAreInjective | app/deploy/locks.py:17-21 | for colon-free names, two keys agree only when they are the same kind of key for the same system, service, environment and server |
| DeploymentLocks.ColonsCollide | app/deploy/locks.py:17-21 | with a colon in a name two different targets share a key |
| DeploymentLocks.KeyIsOfTarget | app/deploy/locks.py:17-21 | each key of a request is the text of one target: system, service and environment with defaults, and a server or none |
| DeploymentLocks.TargetIsAskedFor | app/deploy/locks.py:17-21 | every target with a nonempty service and environment is that of some request |
| DeploymentLocks.SharesKeyIff | app/deploy/locks.py:17-21 | a target shares its key with another exactly when the key can be cut elsewhere: at other colons leaving a nonempty service and environment, or at another place reading `:server:` |
| DeploymentLocks.BaseIsSharedIff | app/deploy/locks.py:18 | another system, service or environment has the same base key exactly when two colons other than those of the join also cut it into a system, a nonempty service and a nonempty environment |
| DeploymentLocks.DistinctKeysIffDistinctServers | app/deploy/locks.py:17-21 | the keys of one request are pairwise distinct exactly when its servers are |
| DeploymentLocks.KeysAre | app/deploy/locks.py:17-21 | the keys as written, in order: system, service and environment, each of the latter two `default` when empty, then one key a server behind that |
| DeploymentLocks.Locks.ReleaseDeploymentLocks | app/deploy/locks.py:59-70 | the table after freeing every key in order, base key first, and the record rows of the database calls that worked |
| DeploymentLocks.Locks.AcquireDeploymentLocks | app/deploy/locks.py:24-56 | the loop takes keys up to the first conflict, then frees what it took; table, records and answer as specified, whichever database calls fail |
| DeploymentLocks.TakenKeysAreStamped | app/deploy/locks.py:24-37 | after success each key is in the table with the clock reading it was taken at |
| DeploymentLocks.LockedRowIs | app/deploy/locks.py:33-56 | a locked key whose database call worked ends with a `locked` row of this request that is good for an hour and keeps the creation time of an earlier row; every other row is as it was |
| DeploymentLocks.ReleasedRowIs | app/deploy/locks.py:59-70 | a row reads `released` from now on exactly when the call for its key worked, nothing else in it changing |
| DeploymentLocks.ReleaseFreesEveryKey | app/deploy/locks.py:59-70 | exactly the listed keys leave both dictionaries; no database failure plays a part |
| DeploymentLocks.ConflictLeavesNoTrace | app/deploy/locks.py:28-31 | after a conflict the table is the original one minus its expired entries |
| DeploymentLocks.SucceedsIffDistinctAndFree | app/deploy/locks.py:24-56 | run alone within the TTL, a request succeeds exactly when its keys are pairwise distinct and none is live |
| DeploymentLocks.DuplicateServerConflicts | app/deploy/locks.py:20-31 | a request naming a server twice conflicts with itself |
| DeploymentRace.AloneItWins | app/deploy/locks.py:24-37 | a task left to itself that finds no key held ends with the table and keys of the lock loop |
| DeploymentRace.AloneItIsRefused | app/deploy/locks.py:28-31 | one that finds a key held ends refused, with the table of the rollback; no other task is touched |
| DeploymentRace.NextKeyIsHeldIff | app/deploy/locks.py:28-32 | a racing task finds its next key held exactly when that is the base key and a rival leads |
| DeploymentRace.StepKeepsInvariant | app/deploy/locks.py:24-70 | every acquire or release call of any task keeps the race invariant |
| DeploymentRace.ExactlyOneWinner | app/deploy/locks.py:17-32 | for any number of racing requests and any interleaving at most one per target wins and holds all its keys, and once all have finished exactly one has won |
| Systems.ComputeDeepMerge | app/config/systems.py:248-255 | the loop with its recursive calls computes the specified merge |
| Systems.CutOffMeansPrefix | app/config/systems.py:248-255 | a path is cut off exactly when a proper prefix of it leads to a value that is not a dictionary |
| Systems.MergeByPath | app/config/systems.py:248-255 | what a path reaches in the result is determined by what the same path reaches in the operands |
| Systems.OverrideLeavesWin | app/config/systems.py:248-255 | every leaf path of the override is a leaf of the result with that value |
| Systems.BaseLeavesSurvive | app/config/systems.py:248-255 | a base leaf survives exactly when the override neither defines its path nor has a non-dictionary at a proper prefix |
| Systems.NoNewLeaves | app/config/systems.py:248-255 | each leaf of the result is a leaf of an operand |
| Systems.MergeIsOverrideIffAbsorbed | app/config/systems.py:248-255 | merging a under c gives c exactly when c has every key of a, at every depth at which both are dictionaries |
| Systems.MergeIsIdempotent | app/config/systems.py:248-255 | merging a value with itself changes nothing |
| Systems.RepeatedOverride | app/config/systems.py:248-255 | a repeated override is absorbed |
| Systems.EmptyIsIdentity | app/config/systems.py:248-255 | the empty dictionary is a two-sided identity |
| Systems.AssociativeIff | app/config/systems.py:248-255 | exactly when three operands merge associatively |
| Systems.AssociatesByPath | app/config/systems.py:248-255 | that condition path by path: at every dictionary, non-dictionary, dictionary path the first is absorbed by the third |
| Systems.AssociativeWithoutSandwich | app/config/systems.py:248-255 | without such a path the merge is associative |
| Systems.NotAssociative | app/config/systems.py:248-255 | a concrete triple for which it is not |
| Systems.ComputeOverrideService | app/config/systems.py:266-273 | the loop over one override's items gives the specified service, of which OneIsOverridden says what it is, raising exactly where merging the template variables raises |
| Systems.ComputeServiceOverrides | app/config/systems.py:258-274 | the loop over services gives the specified list, of which EachIsResolved says what it is, or raises |
| Systems.LeavesAreMerged | app/config/systems.py:248-255 | a merge of dictionaries by its leaves: those of the override, with its values, and those of the base that it neither defines nor cuts off, with theirs, and no other |
| Systems.OneIsOverridden | app/config/systems.py:266-273 | a service under an override: every key of the override has its value and every other key its own, but template variables of both are merged by leaves; it raises exactly when these cannot be merged |
| Systems.EachIsResolved | app/config/systems.py:258-274 | the services under the overrides, one by one: each addressed by its own name is overridden so, every other is as it was, and the whole raises exactly when one does |
| Systems.ServicesAreResolved | app/config/systems.py:313-316 | the same of the services of a resolved system, under the overrides of the environment asked for, if there is such |
| Systems.OverriddenLeavesWin | app/config/systems.py:258-316 | in a resolved system every leaf of an override's template variables is a leaf of the service's with that value, and a leaf of the service keeps its value exactly when the override leaves its path alone or agrees |
| Systems.ResolvedVariablesAre | app/config/systems.py:290-316 | the variables of a resolved system, key by key: the environment's win |
| Systems.FlatMergeIs | config_manager.py:284-301 | the flat merge, key by key: service over environment over system |
| Systems.FindService | app/config/systems.py:352-362 | the first service of that name, or none when no service has it |
| Systems.FoundIsFirst | app/config/systems.py:352-362 | no service before the one found has the name |
| Systems.ComputeAddLevel | app/config/systems.py:334-349 | the loop adds one link to each variable a level sets, with value and source |
| Systems.AddServiceLevel | app/config/systems.py:350-362 | the search adds the variables of the first service of that name, or nothing |
| Systems.GetVariableInheritance | app/config/systems.py:326-363 | the three levels in order compute the specified provenance |
| Systems.AddLevelKeepsOrder | app/config/systems.py:334-361 | adding a later level keeps every chain nonempty, strictly ordered and ending in the reported value and source |
| Systems.ProvenanceAgrees | app/config/systems.py:326-363 | provenance has the keys and values of the flat merge on the resolved service, well-ordered chains, and without a service the resolved system variables |
| SystemStore.SyncRows | app/config/systems.py:165-187 | deleting stale rows and editing or adding the others equals replacing all rows of the system |
| SystemStore.CollectServices | app/config/systems.py:160-164 | the incoming services by stripped name, a later one replacing an earlier one |
| SystemStore.LastDuplicateWins | app/config/systems.py:160-164 | of several services with one stripped name the last is saved |
| SystemStore.Database.SaveSystem | app/config/systems.py:115-219 | one transaction with the specified store, or nothing changed when routing is refused |
| SystemStore.SavedServicesAreRead | app/config/systems.py:159-187 | after a save that supplies services exactly those are read back, with the ids of retained names; other systems' rows are unchanged |
| SystemStore.SavedServiceIs | app/config/systems.py:159-187 | the fields of a saved service: display name defaulting to its name, everything else as given but for its routing; and its id |
| SystemStore.SavedEnvironmentsAreRead | app/config/systems.py:189-214 | the same for environments, field by field: defaults for name and category, the deploy path standing in for a missing base path |
| SystemStore.EnvironmentIdsAreKept | app/config/systems.py:195-204 | environments keep the ids of their rows, new ones get new ids |
| SystemStore.SavedSystemIsRead | app/config/systems.py:115-158 | a save gets through exactly when the routing can be normalised; the system then keeps its id and reads as given with the defaults filled in, and other systems, and tables the payload is silent about, are unchanged |
| SystemStore.SavedEnvironmentIsResolved | app/config/systems.py:189-214 | resolution sees the variables and service overrides of the payload, or none for one that is no dictionary |
| SystemStore.ServicesRoundTripIff | app/config/systems.py:51-70 | saving back the services that were read leaves them unchanged exactly when each has a stripped nonempty name and no routing among its template variables |
| SystemStore.SavingBackIsNeutralIff | app/config/systems.py:115-219 | the same for the whole read view of a system, given idempotent routing normalisation |
| SystemStore.SavedStatesArePlain | app/config/systems.py:159-187 | every save that supplies services reaches a state that satisfies that condition |
| SystemStore.RoutingIsLost | app/config/systems.py:183-186 | a store with a routed service whose read view changes when saved back |
| Templates.UnboundTextIsKept | config_manager.py:307-316 | cutting a text at its placeholders loses nothing |
| Templates.PlaceholdersAreMatches | config_manager.py:307-316 | the placeholders replaced are exactly the matches of the pattern in the text, each where it stands, as matches cannot overlap |
| Templates.FillAppend | config_manager.py:310-316 | each piece is filled in independently of the others |
| Templates.ReplacementMeans | config_manager.py:311-315 | where a quoted value is opaque, at any depth of expansions, a replacement does to the tokenizer what an opaque literal does |
| Templates.RenderingCommutes | config_manager.py:304-316 | where every string placeholder is well placed, the rendered command has the tokens of the template with opaque values, expansions included |
| Templates.HazardBreaks | config_manager.py:311-316 | for bare placeholders, a hazardous value breaks the command, sets its tokens apart from some place on, or loses backslashes; without one the runs agree |
| Templates.BareRenderingCommutesIff | config_manager.py:304-316 | for placeholders in unquoted position at any depth of `$(..)`, `${..}` and backquotes in a complete command, rendering commutes with tokenizing exactly when no value is hazardous where it stands |
| Templates.OnePlaceholderCommutesIff | config_manager.py:304-316 | the same for one placeholder, the question being put where the text before it leads |
| Templates.DashIsAbsorbed | config_manager.py:313-314 | `<<{{d}}` with `-x` for `d` does not keep its meaning |
| Templates.BackquotesTakeIff | config_manager.py:313-314 | a placeholder in backquotes takes exactly the values without a backquote and without a backslash before a dollar sign or backslash |
| Templates.SubstitutionTakesAll | config_manager.py:313-314 | one in `$(..)` takes every value |
| Templates.SingleQuotesTakeIff | config_manager.py:304-316 | in a complete command a placeholder in single quotes, outside backquotes, keeps its meaning exactly for the values of safe characters |
| Templates.SpaceLeavesQuotes | config_manager.py:313-314 | `'{{d}}'` with `a b` for `d` does not keep its meaning |
| Templates.BodyHasNoPlace | config_manager.py:304-316 | after the line `<<E` no placeholder stands in a bare position |
| Templates.StructureIsKept | config_manager.py:309-321 | the same paths of keys and positions exist after rendering, each leading to the rendered value |
| Templates.ReplacedIsRendered | config_manager.py:307-321 | a rendered value path by path: each string at its path is rendered with the quoting asked for, numbers, booleans and null are the same, dictionaries keep their keys and lists their lengths |
| Templates.RenderedStepsMeanTheirTemplates | config_manager.py:304-326 | with quoting, each rendered string at each path of the steps obeys the tokenizing law of BareRenderingCommutesIff |
| Templates.ReplacementIs | config_manager.py:310-315 | what stands for a placeholder: the value, quoted when asked for and a string; an unbound one stays, quoted likewise |
| Templates.ResolveTemplate | config_manager.py:304-326 | only `steps`, `is_generic` and `resolved_from` of the copy change; at every path of the steps a string becomes its rendering with the quoting asked for, and every other value keeps its kind, keys and length |
| ShellTokens.QuotedIsOpaqueWhenBare | config_manager.py:313-314 | in unquoted position at any depth of expansions a quoted value is one opaque literal, unless it is hazardous: it continues an operator or name, or backquotes around it would change it |
| ShellTokens.QuoteKeepsIff | config_manager.py:313-314 | quoting leaves alone exactly the nonempty values of ASCII letters, digits and `_@%+=:,./-` |
| ShellTokens.SafeValueIsOpaqueInQuotes | config_manager.py:313-314 | inside quotes a quoted value is opaque when it needed no quotes, the empty one also in single quotes; in a comment when it has no line feed and nothing that backquotes around it would change |
| ShellTokens.SingleTakesIff | config_manager.py:313-314 | outside backquotes, a value put in single quotes is opaque exactly when it is all safe characters; any other is written otherwise, falls short, or breaks the command |
| ShellTokens.DoubleTakesIff | config_manager.py:313-314 | outside backquotes, a value put in double quotes is opaque exactly when it is a nonempty run of safe characters |
| ShellTokens.BodyIsNeverRead | config_manager.py:304-316 | once a here-document operator has been read, input has no tokens if a new line follows |
| ShellTokens.AbsorbedDiverges | config_manager.py:313-314 | a bare value that continues what is before it gives different tokens from some place on |
| ShellTokens.UnescapedIff | config_manager.py:313-314 | nested backquotes leave a text unchanged exactly when it is kept, and otherwise break on it or take backslashes from it |
| ShellTokens.KeptIff | config_manager.py:313-314 | a text is kept exactly when it has no backquote and no backslash before a character that some enclosing backquotes escape |
| ShellTokens.UnkeptLosesSlashes | config_manager.py:313-314 | a quoted value that is not kept breaks the command, or ends where it should with backslashes missing and nothing else |
| EnvFiles.SplitJoin | scripts/matrix_login.py:100 | joined lines split into the same lines |
| EnvFiles.SplitLinesCuts | scripts/matrix_login.py:48 | each line boundary ends a line, a carriage return takes a line feed along, and the last line needs none |
| EnvFiles.LoadEnv | scripts/matrix_login.py:44-54 | the loop computes the last binding of every key |
| EnvFiles.LoadAppend | scripts/matrix_login.py:48-53 | later lines override earlier ones |
| EnvFiles.ParsedIff | scripts/matrix_login.py:48-53 | a line binds what stands before its first equals sign to what follows, exactly when it is no comment and has one |
| EnvFiles.CleanMatrixIs | scripts/matrix_login.py:53 | a value loses spaces and then double quotes at its ends, as far as they go |
| EnvFiles.CleanRotateIs | scripts/rotate_secrets.py:72 | the other reader takes single quotes off too, after the double ones |
| EnvFiles.UpdateEnv | scripts/matrix_login.py:63-101 | the loops produce the specified text: lines rewritten or retired in place, then header and additions |
| EnvFiles.UpdatedLinesLoad | scripts/matrix_login.py:71-90 | rewriting in place has the specified effect on what the lines load to |
| EnvFiles.UpdatedLineIs | scripts/matrix_login.py:71-90 | the rewritten file line by line: one that binds a retired key becomes a comment holding it, one that binds an updated key is rewritten, every other is unchanged |
| EnvFiles.AdditionsAre | scripts/matrix_login.py:95-97 | the additions in order, as written, less those made in place |
| EnvFiles.AdditionsLoad | scripts/matrix_login.py:92-97 | the additions bind exactly the updates not seen in place |
| EnvFiles.UpdateIsMapUpdate | scripts/matrix_login.py:63-101 | loading the rewritten file gives the original minus retired keys overridden by the updates, for every file; only an empty key cannot be retired |
| EnvFiles.CleanUpdatesArriveLiterally | scripts/matrix_login.py:63-101 | values a reader keeps as they are arrive literally |
| EnvFiles.EmptyKeyIsNotRetired | scripts/matrix_login.py:76-90 | the line `=a` stays although the empty key is retired |
| EnvFiles.ComputeWriteLines | scripts/rotate_secrets.py:92-100 | the loop replaces the first assigning line or appends one |
| EnvFiles.WrittenLineIs | scripts/rotate_secrets.py:92-100 | only the first line that assigns the key changes, and without one a line is added at the end |
| EnvFiles.WrittenValueIsRead | scripts/rotate_secrets.py:63-101 | the key reads as the new value unless a later line binds it again; every other key reads as before |
| EnvFiles.SingleBindingIsReplaced | scripts/rotate_secrets.py:63-101 | with at most one binding the written value is read |
| EnvFiles.SecondBindingShadows | scripts/rotate_secrets.py:92-101 | of two bindings the first is rewritten and the second is read |
| EnvFiles.SecondBindingShadowsHere | scripts/rotate_secrets.py:92-101 | the same for `K=a` and `K=b` |
| RotateSecrets.Host.BackupDatabase | scripts/rotate_secrets.py:187-197 | the backup holds the database, which is untouched; a crash on the way may leave anything in the backup |
| RotateSecrets.Host.WriteEnv | scripts/rotate_secrets.py:84-102 | a missing file and one that is not valid UTF-8 are refused untouched; otherwise `.env` gets the rewritten text after its backup, and each write may be torn by a crash |
| RotateSecrets.Host.CollectSecretRows | scripts/rotate_secrets.py:141-173 | every nonempty secret cell of the columns that could be queried, once each |
| RotateSecrets.CollectedIff | scripts/rotate_secrets.py:155-173 | a cell is collected exactly when it has a nonempty value, its column is `password`, `key_content` or ends in `_encrypted`, and that column can be queried |
| RotateSecrets.Host.DecryptAll | scripts/rotate_secrets.py:287-307 | no failures exactly when every row reads under the old key, and then each secret in order |
| RotateSecrets.Host.EncryptAll | scripts/rotate_secrets.py:317-328 | each value encrypted so that the new key reads the same secret |
| RotateSecrets.Host.Commit | scripts/rotate_secrets.py:338-344 | all updates in one step, every other cell unchanged |
| RotateSecrets.Host.Verify | scripts/rotate_secrets.py:345-356 | succeeds exactly when every written value decrypts |
| RotateSecrets.Host.PrepareUpdates | scripts/rotate_secrets.py:274-328 | no updates exactly when a row cannot be read with a nonempty old key; otherwise one for each collected cell, for the secret it stands for |
| RotateSecrets.Host.ApplyUpdates | scripts/rotate_secrets.py:335-356 | after backup, transaction and read-back exactly those cells are re-encrypted, verification succeeds, and at every crash point the original database exists |
| RotateSecrets.UpdatesReencrypt | scripts/rotate_secrets.py:338-356 | writing the updates re-encrypts exactly their cells, each for the secret it stood for, and all can be read back |
| RotateSecrets.ReencryptedRotatesAll | scripts/rotate_secrets.py:269-372 | re-encrypting what is collected rotates every nonempty cell of a column so named: a token that the new key decrypts to what the old key read; every cell of any other column is unchanged |
| RotateSecrets.ReadingIs | scripts/rotate_secrets.py:298-309 | the secret of a stored value: what its token decrypts to behind `fernet:`, else the value itself |
| RotateSecrets.KeyFromIs | scripts/rotate_secrets.py:63-81 | the key of a file is what it binds to `OPS_SECRET_KEY` |
| RotateSecrets.ProcessShadowsFile | scripts/rotate_secrets.py:76-81 | a variable of the process wins over the file |
| RotateSecrets.Host.RotateOpsKey | scripts/rotate_secrets.py:269-372 | the whole run: which outcome it ends with and when, what each outcome leaves on disk, also when `.env` is missing or not valid UTF-8, and that at every crash point the original database and `.env` both exist in place or as backups |
| RotateSecrets.CrashesAreRecoverableIff | scripts/rotate_secrets.py:269-372 | every crash point leaves a database and `.env` pair that gives all secrets exactly when the initial pair gives them |
| RotateSecrets.UnshadowedKeyYields | scripts/rotate_secrets.py:76-81 | the initial pair gives them when the process has no different key of its own |
| RotateSecrets.RewrittenEnvYields | scripts/rotate_secrets.py:63-101 | the rewritten file yields the new key, unless a later line binds it again |
| RotateSecrets.CompletedRotationMigratesIff | scripts/rotate_secrets.py:274-281 | a completed run migrated every secret exactly when the old key was nonempty and no column with a secret was skipped |
| RotateSecrets.CompletedRotationYieldsSecrets | scripts/rotate_secrets.py:269-372 | with a nonempty old key and at most one binding, the new database with the new `.env` gives exactly the former secrets |
| RotateSecrets.RotateEverything | scripts/rotate_secrets.py:269-372 | a run in which every column can be queried: applied with a nonempty old key, it leaves every nonempty cell of a column named `password`, `key_content` or with suffix `_encrypted` encrypted and reading under the new key as before under the old, and every other cell unchanged; refused or dry, it changes nothing; done, its database and `.env` give every secret; at every crash point some pair gives them exactly when the initial pair did, as it does under an unshadowed key |
| RotateSecrets.EmptyOldKeyLeavesPlaintext | scripts/rotate_secrets.py:274-281 | with an empty old key a stored plaintext password stays as it is |
| RotateSecrets.EncryptPlaintext | scripts/rotate_secrets.py:375-428 | without a key nothing happens; otherwise exactly the plaintext cells are encrypted under the current key, after a backup, and read back, or nothing is changed; where every column can be queried, those are the nonempty cells of the columns so named that have no `fernet:` |
| RotateSecrets.PlaintextIsEncrypted | scripts/rotate_secrets.py:375-428 | encrypting what is collected as plaintext encrypts every such cell, each decrypting to what it held, and leaves every other one |
| RotateSecrets.EncryptingKeepsMeaning | scripts/rotate_secrets.py:375-428 | no secret read with the key changes, and no plaintext is left |
| LoginLimiter.Limiter.Login | app/api/auth_v2.py:53-64 | prunes the address's list, answers and records as specified |
| LoginLimiter.AnswerIsBySlidingWindow | app/api/auth_v2.py:56-64 | 429 exactly when five recorded failures of the full history lie within the last 60 seconds |
| LoginLimiter.LimiterIsSlidingWindow | app/api/auth_v2.py:53-64 | over every run with a nondecreasing clock the pruned lists agree with the full history on the recent failures |
| LoginLimiter.RecentAre | app/api/auth_v2.py:55 | pruning keeps exactly the times less than 60 seconds back, each as often as it was there |
| LoginLimiter.EveryAnswerIsByHistory | app/api/auth_v2.py:53-64 | after any run a login is answered 429 exactly when five failures answered 401 lie in the last 60 seconds, otherwise by its credentials, and only an answer 401 records a failure |
| LoginLimiter.AttemptLeaves | app/api/auth_v2.py:53-64 | an attempt leaves the address with its recent times, and this one if it failed; other addresses keep theirs |
| LoginLimiter.FromTheStart | app/api/auth_v2.py:53-64 | no half-open minute holds more than five recorded failures of an address |
| SessionTokens.CreatedTokenVerifiesIff | app/core/auth_v2.py:61-97 | a created token verifies, to its username and version, exactly when the username is pipe-free and the token within the TTL |
| SessionTokens.VerifiesIff | app/core/auth_v2.py:72-97 | an arbitrary token verifies, as a session, exactly when its last field is the signature of what precedes it, that has the three or four fields, version (1 when absent or empty) and time read, and the TTL has not passed; the session has the first field and the version |
| SessionTokens.VerifiedSpeaks | app/core/auth_v2.py:72-97 | whatever the platform does, a token that verifies ends in the signature of the payload it is read from |
| SessionTokens.ForgedTokenFails | app/core/auth_v2.py:74-80 | a token whose last field is not the signature of what precedes it never verifies, nor does one without a pipe |
| SessionTokens.RunIsConsistent | app/core/auth_v2.py:61-121 | over any run versions count resets and every token was made for the version of its time |
| SessionTokens.AcceptedIffNotReset | app/core/auth_v2.py:100-121 | a token is accepted, as its user's, exactly when the name is pipe-free, the TTL has not passed and the password was not reset since |
| SessionTokens.CurrentUserIff | app/core/auth_v2.py:100-121 | who the bearer of an arbitrary token is, in any world: the user of the session it speaks for, exactly when that user exists and has that version, 0 counting as 1 |
| SessionTokens.ForgedTokenIsNobodys | app/core/auth_v2.py:100-121 | a forged token is nobody's, after any run |
| SessionTokens.VersionsGrowIff | app/core/auth_v2.py:100-121 | users are those created, and a version grows exactly when the password is reset |
| SessionTokens.TokenLastsUntilReset | app/core/auth_v2.py:61-121 | over whole runs the token of a login is accepted, as that user's, exactly when the name is pipe-free, the TTL has not passed and no later event resets the password |
| SftpPaths.SafePathIsNormal | app/api/sftp.py:122-127 | an absolute path becomes one of ordinary names after one or two slashes, with the same components |
| SftpPaths.SafePathKeepsMeaning | app/api/sftp.py:122-127 | on absolute paths normalisation is idempotent and resolves to the raw path's components |
| SftpPaths.ResolveOneMore | app/api/sftp.py:122-127 | where one component more leads: an empty one and `.` stay, `..` goes to the parent, which the root has not, a name goes below |
| SftpPaths.RelativeOneMore | app/api/sftp.py:122-127 | for a relative path `..` removes the name before it, and stays where there is none |
| SftpPaths.SafePathWrites | app/api/sftp.py:122-127 | what normalisation writes: the resolved components behind one slash, or behind two for exactly two leading ones; for relative paths what they keep, or a dot |
| SftpPaths.AcceptsIff | app/api/sftp.py:159-161 | a root other than the top accepts exactly the paths it is a component prefix of |
| SftpPaths.AcceptedIsContained | app/api/sftp.py:156-161 | for every path, absolute or relative, acceptance by such a root means no `.` or `..` and a component prefix |
| SftpPaths.AcceptsBelowIff | app/api/sftp.py:156-161 | for absolute paths such a root accepts exactly what resolves to a path below it and has as many leading slashes |
| SftpPaths.ConfiguredRootsAre | app/api/sftp.py:130-142 | the roots of a setting: the list given, or the stripped, nonempty fields of the text; without any, `/data`, `/opt`, `/var/log` and `/tmp` |
| SftpPaths.ServerAllowedRoots | app/api/sftp.py:130-146 | the loop gives the normalised roots without repetition in order of first occurrence, at least one |
| SftpPaths.EnsurePathAllowed | app/api/sftp.py:156-165 | the normalised path exactly when some root accepts it |
| SftpPaths.AbsoluteSettingsAreProper | app/api/sftp.py:141-145 | absolute settings not leading to the top are proper roots |
| SftpPaths.AllowedIsContained | app/api/sftp.py:156-165 | with proper roots an accepted path lies below one of them, free of `.` and `..` |
| SftpPaths.DoubleSlashRootAcceptsAll | app/api/sftp.py:159-161 | the root `//` accepts everything although it is not `/` |
| SftpPaths.UploadTarget | app/api/sftp.py:248-255 | which of its three checks an upload must pass, and the path it goes to |
| SftpPaths.SafeFilenameIff | app/api/sftp.py:168-172 | the file name is what follows the last slash or backslash, or the whole name without one, refused exactly when that is empty, `.` or `..` |
| SftpPaths.UploadIsDirectChild | app/api/sftp.py:248-255 | an upload into an absolute directory goes to that directory's components followed by the file name |
| TemporaryApprovals.Approvals.ConfirmGrant | app/api/temporary_approvals.py:96-146 | the checks in order and the activation of one grant; and it is a step of the runs below |
| TemporaryApprovals.Approvals.RevokeGrant | app/api/temporary_approvals.py:150-178 | only an active grant is revoked; and it is a step of the runs below |
| TemporaryApprovals.Approvals.DeleteGrant | app/api/temporary_approvals.py:182-205 | the row goes, if it exists; and it is a step of the runs below |
| TemporaryApprovals.Approvals.BatchRevokeGrants | app/api/temporary_approvals.py:209-248 | the loop revokes exactly the active grants among the stripped ids and reports them; an empty batch is refused; and it is a step of the runs below |
| TemporaryApprovals.Approvals.BatchDeleteGrants | app/api/temporary_approvals.py:252-283 | the loop deletes exactly the listed rows and reports them; and it is a step of the runs below |
| TemporaryApprovals.NamesGrantIff | app/api/temporary_approvals.py:111-113 | a phrase confirms a grant exactly when, stripped and upper-cased, it has the first eight characters of the id, upper-cased, somewhere in it |
| TemporaryApprovals.ConfirmedIff | app/api/temporary_approvals.py:107-137 | which request is confirmed, and which of the checks every other one fails first; the confirmed grant field by field |
| TemporaryApprovals.RevokedIff | app/api/temporary_approvals.py:150-178 | exactly the active grants are revoked; the revoked grant field by field |
| TemporaryApprovals.DeletedIff | app/api/temporary_approvals.py:182-205 | the row goes exactly when it is there, and no other |
| TemporaryApprovals.BatchIdsAre | app/api/temporary_approvals.py:216-219 | a batch names the stripped ids that are not empty |
| TemporaryApprovals.BatchRevokedIff | app/api/temporary_approvals.py:227-244 | after a batch the active grants it names are revoked, field by field, and every other row is as it was |
| TemporaryApprovals.StepKeepsGrants | app/api/temporary_approvals.py:96-283 | each request keeps one active grant per scope, sound grants, and only moves grants forward |
| TemporaryApprovals.EveryRunKeepsGrants | app/api/temporary_approvals.py:96-283 | over every sequence of requests: one active grant per scope, a scope key exactly while active, one activation of exactly the requested duration, and revoked for good |
| TemporaryApprovals.PendingGrantsAreSound | app/api/temporary_approvals.py:109-110 | pending grants satisfy what such a run starts from |
| TemporaryApprovals.BatchIsFold | app/api/temporary_approvals.py:227-244 | batch revocation equals revoking its active grants one by one in any order |
| TemporaryApprovals.ScopeKeysCollide | app/api/temporary_approvals.py:36-44 | two different scopes can share a scope key |
| TemporaryApprovals.PlainScopesHaveTheirOwnKeys | app/api/temporary_approvals.py:36-44 | scopes of which only the beneficiary may contain colons share a scope key only when equal |
| TemporaryApprovals.SharesScopeKeyIff | app/api/temporary_approvals.py:36-44 | another scope has the same key exactly when some field contains a colon |
| TemporaryApprovals.IntegrityErrorIffCollision | app/api/temporary_approvals.py:116-138 | a confirmation that passes the scope check fails on the unique index exactly through such a collision |
| SshPool.AddressIs | ssh_client.py:438-451 | a machine's address: its user, else its username, else `root`; its host; its port, else 22 |
| SshPool.KeysAgreeIff | ssh_client.py:437-453 | for users and ports without separators, and hosts without at-sign and bar, which IPv6 addresses are, two configurations share a pool key exactly when they share the address and the resolved hops |
| SshPool.SharesKeyIff | ssh_client.py:437-453 | for any names, a configuration shares its key with one of another address or other resolved hops exactly when the key can also be cut elsewhere into an address, and hops or `direct` |
| SshPool.AtSignsCollide | ssh_client.py:437-453 | two different addresses with at-signs in user or host read the same |
| SshPool.KeySeesResolvedPart | ssh_client.py:441-447 | the hops in a key are the resolved ones of the route that a connection is given |
| SshPool.KeyTellsRouteIff | ssh_client.py:437-453 | where every hop is resolved and plain, two configurations share a key exactly when address and route are the same |
| SshPool.UnresolvedHopsShareKeys | ssh_client.py:441-447 | every configuration shares its key with one whose route has an unresolved hop more |
| SshPool.SSHConnectionPool.CloseClient | ssh_client.py:352-370 | close is recorded, and drops the connection unless dropping it raises; and it is a step of the runs below |
| SshPool.ClosedIs | ssh_client.py:352-370 | closing marks the client closed and drops its connection unless dropping it raises; nothing else changes |
| SshPool.SSHConnectionPool.GetClient | ssh_client.py:515-581 | hit, eviction of a dead client, and storing a new one, as specified |
| SshPool.SSHConnectionPool.Cleanup | ssh_client.py:586-600 | the loops evict exactly the idle keys; and it is a step of the runs below |
| SshPool.SSHConnectionPool.CloseAll | ssh_client.py:620-628 | every pooled client is closed and both dictionaries are empty; and it is a step of the runs below |
| SshPool.StepKeepsSound | ssh_client.py:515-628 | every locked block keeps the two dictionaries' keys equal and each client under the key it was made for |
| SshPool.HitIsLive | ssh_client.py:521-535 | a hit is a connected, active client made for this key and changes only its access time; a miss leaves the key free |
| SshPool.StoredIsHit | ssh_client.py:515-581 | a `get` that connects gives a new client, connected and open under its key; the next one gives the same while its transport is active; no other client or key is touched |
| SshPool.CleanupRemovesIff | ssh_client.py:586-600 | an entry goes, closed, exactly when it was idle for longer than the limit; all others are untouched |
| SshPool.StepAccountsIff | ssh_client.py:515-628 | a locked block loses a client, neither pooled nor closed, exactly when it stores over one nobody closed |
| SshPool.RunsAccount | ssh_client.py:515-628 | over every interleaving without such a store no client is lost |
| SshPool.SerialRunsAccount | ssh_client.py:515-628 | in single-threaded runs every client ever stored is pooled or closed |
| SshPool.DoubleMissLeaks | ssh_client.py:521-580 | two threads missing one key together lose a client |
| History.CleanDeploymentIds | app/deploy/history.py:113-122 | the loop gives the stripped, nonempty ids without repetition in order of first appearance |
| History.CleanKeepsIds | app/deploy/history.py:113-122 | exactly the stripped nonempty ids are kept |
| History.CleanOfClean | app/deploy/history.py:125-126 | cleaning clean ids changes nothing, so raw and cleaned requests ask for the same confirmation |
| History.Database.DeleteDeploymentRows | app/deploy/history.py:129-156 | the statements in order remove the specified rows of the six tables and count them |
| History.Database.DeleteDeploymentHistory | app/deploy/history.py:159-198 | the checks in order, then the deletion of one deployment |
| History.Database.DeleteDeploymentHistories | app/deploy/history.py:201-244 | the checks in order, with the missing ids reported, then the joint deletion |
| History.DeletedOneIff | app/deploy/history.py:159-198 | a deployment is deleted exactly when it exists, the text is `DELETE DEPLOYMENT` with its id, and it is not pending, running or queued, or forced; every other request changes nothing and says which check it failed first |
| History.DeletedManyIff | app/deploy/history.py:201-244 | a batch is deleted exactly when it has 1 to 200 different ids, all exist, the text is `DELETE DEPLOYMENTS` with their number, and none is pending, running or queued, or the deletion is forced; every other one changes nothing and says which check it failed first |
| History.DecimalReadsBack | app/deploy/history.py:126 | the number in that text reads back, without leading zeros |
| History.MissingAre | app/deploy/history.py:209-212 | the missing ids reported are those asked for that do not exist |
| History.CountsAreRowsGone | app/deploy/history.py:131-156 | the counts reported are the numbers of rows that went |
| History.RemoveUnion | app/deploy/history.py:129-156 | deleting two sets one after the other deletes their union, and the counts add up |
| History.RowsOutliveIff | app/deploy/history.py:147-155 | a row stays, unchanged, exactly when it names no deleted deployment |
| History.LogsOutliveIff | app/deploy/history.py:142-153 | a log goes exactly when it names a deleted deployment or a deleted task with a nonempty id |
| History.OrphanIff | app/deploy/history.py:142-153 | a log naming a deleted task is left behind exactly when that task has the empty id and the log names no deleted deployment |
| History.ConfirmationIsAttainable | app/deploy/history.py:168-169 | the confirmation text asked for passes its own check |
| History.EachIsJoint | app/deploy/history.py:159-198 | deleting one by one gets through exactly when every deployment exists and is idle or forced, and equals one joint deletion |
| History.BatchIsFold | app/deploy/history.py:201-244 | a confirmed batch of 1 to 200 ids succeeds exactly when deleting one by one would, with the same rows and counts, and otherwise changes nothing |

## Left out

- CommandSecurity.TerminalInputGuard.FeedText: does not model byte input cut inside a UTF-8 character, which is not chunk-invariant, nor lone surrogates, because Dafny characters have none.
- CommandSecurity.GuardSimulatesRemote: does not model escape sequences, history or completion of real shells, which the guard does not interpret.
- The pattern tables themselves, output and path sanitizers and log messages: regular expressions are not part of the model.
- DeploymentLocks.Locks.AcquireDeploymentLocks: does not model the unused `timeout` parameter of `acquire`.
- DeploymentRace.ExactlyOneWinner: does not model requests that release a lock they won or outlive the TTL; for those see DeployLock.SecondHolderIffOverdue.
- `clear_all` and the payload that lists locks: only easy members.
- Systems.ComputeServiceOverrides: does not model services that are no dictionaries, which the database never yields.
- Group overrides and the remaining fields of `resolve_system_config`: copies without interplay.
- Templates.RenderingCommutes: does not model here-document bodies, which section 2.3 makes part of token recognition: a command with one has no tokens here, so that nothing is claimed of it; nor alias substitution (section 2.3.1), which an unquoted safe value in command position is open to; nor the pattern of a `case` inside `$(..)` that is written without its opening parenthesis, which takes the grammar to tell from the end of the substitution; nor what is decided after token recognition: reserved words, assignments, tilde prefixes, bracket expressions and IO numbers (section 2.10).
- Templates.SingleQuotesTakeIff: does not speak of single quotes inside backquotes, which decode a value before it leaves the quotes.
- ShellTokens.QuotedIsOpaqueWhenBare: does not speak of placeholders right after a backslash or `$`, in the parameter name or operator of `${..}`, or in arithmetic, where an opaque literal has no meaning; values that are not strings may stand anywhere.
- RotateSecrets.Host.RotateOpsKey: does not model the refusal of a missing database, which comes before any change, a failing assertion of the encryption library, a crash of the disk itself, or a writer other than the run.
- Secrets read as text: a cell holding a number is taken by its text form.
- LoginLimiter.Limiter.Login: does not model handlers of one address running concurrently, nor the cookie that a success sets.
- SessionTokens.AcceptedIffNotReset: does not model deleted users or a change of the signing secret; how hard it is to come by a signature without that secret is no part of any of these results.
- TemporaryApprovals.Approvals.ConfirmGrant: does not model grant creation, expiry by the service, authentication of the administrator and audit entries; the service is not shown.
- SftpPaths.UploadIsDirectChild: does not model what the remote file system makes of the path, such as symbolic links.
- SshPool.SSHConnectionPool.GetClient: does not model jump host lookup in the database and connection details; a failed connection or missing credentials is one input.
- SshPool.SerialRunsAccount: single-threaded only; with threads a client can be lost, see SshPool.DoubleMissLeaks.
- SystemStore.Database.SaveSystem: does not model database failures, which roll the transaction back, the normalisation of routing itself, and values of the wrong type.
- History.Database.DeleteDeploymentRows: does not model foreign keys checked by the database, nor task references of step, server and distribution rows, which the code does not follow.
- CRUD endpoints, pagination, status normalisation, ETags, preflight summaries and the front end: only easy members or I/O.
- SSH, SFTP, HTTP, WebSocket, Matrix and subprocess traffic: I/O.
