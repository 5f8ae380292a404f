# A small C shell, modelled in Dafny

This project models the core of a small interactive C shell. The core has these parts:

- **The background job table** (`part_eight_*`). It is a fixed array of 1024 `job_t` slots with three counters: the next slot, the next job number and the active-job count, which is capped at 10. Its operations register a job, reap finished children through non-blocking `waitpid`, list the active jobs with a `+` on the most recent one, and shut the table down.
- **Command resolution and the launch decisions of `execute_command`.** The `PATH` search of `find_executable`, the checks made before `fork`, and what the parent returns.
- **The argument transforms:**
  - `$NAME` expansion, in a copying version and an in-place version;
  - `~` expansion;
  - the redirection operand scan and in-place compaction of `handle_io_redirection`;
  - `join_argv` and `tokenlist_to_argv`;
  - the split of a token list at `|`;
  - the removal of a trailing `&`;
  - trimming of the input line.
- **The three-command history and the target choice of `cd`.**
- **The descriptor plan of a two- or three-stage pipeline.** For each stage, which pipe ends it binds to standard input and output, and which ends it closes; also which ends the parent closes and how many times it waits.
- **`process_command` and one turn of the main loop**, which tie all of the above together.

The modules follow the source files. Each module states what its operations do and what they promise:

| module | file | what it holds |
|---|---|---|
| `Common`, `Strings` | common.dfy | NULL-terminated argument vectors (`Argc`, `Tokens`, `Wrap`), the environment, the file-system oracle, `Join` and strtok-style `Fields` |
| `JobSpec` | job_spec.dfy | the job table as a value, one function per operation, and the invariants and lemmas |
| `JobTable` | job_table.dfy | the class `Table`: the array of slots and the counters, updated in place, each method proved to follow `JobSpec` |
| `Exec` | exec_external.dfy | `find_executable`, `execute_command`, and the child after `fork` |
| `Redirection` | io_redirection.dfy | `handle_io_redirection` |
| `ExpandEnv` | expand_env.dfy | `is_valid_env_name`, `expand_env_vars_dup`, `expand_env_vars_inplace` |
| `Tilde` | tilde_expansion.dfy | `expand_tilde` |
| `Builtins` | builtins.dfy | the class `History`, `builtin_exit`'s listing, `builtin_cd` |
| `Piping` | piping.dfy | `last_is_background` and `execute_pipeline` |
| `Shell` | shell.dfy | `join_argv`, `tokenlist_to_argv`, `process_command`, input trimming and one turn of the main loop |

System calls and the environment are parameters of the model, as follows:

| in the source | in the model |
|---|---|
| `waitpid(-1, …, WNOHANG)` | a sequence of `WaitResult`s |
| `getenv` | a map `Env` |
| `access(X_OK)`, `stat`, `S_ISREG`, `S_IXUSR`, `open` and `chdir` | the sets of a `FileSystem` |
| what `fork` returns to the parent | `forkPid` |
| whether each `pipe()` succeeds | `ok1`, `ok2` |
| whether `strdup` of the command line in `add_job` succeeds | `copied` |
| whether `execv` succeeds | `execOk` |
| what the lexer produces | a token list |

Printed lines are appended to an output sequence of `Line`s.

The source has two copies of the job table: `background_proc.c` and `root/src/background_proc.c`. Their logic is identical; they differ only in `static` and in their headers. The value-level functions of `JobSpec` cite the first copy. The methods of `JobTable.Table` cite the second.

Where the code and the written description of the shell disagree, the model follows the code. There are two exceptions, both listed under "## Findings". The dispatch of a lone `&` follows the corrected `Shell.Classify`. The imperative pipeline members (`Piping.ExecutePipeline`, `Piping.Run`, `Shell.RunPipeline`, and through them `Shell.ProcessCommand` and `Shell.Step`) carry out the corrected `Piping.Plan`. `Piping.PlanAsWritten` records what the code does.

The disagreements with the description are these:

- **A job-number gap on a failed copy.** The description says a refused registration leaves the table unchanged. The code consumes a job number before the `strdup` of the command line. When that `strdup` fails, the number is lost, as `JobSpec.Add` states.
- **`exit` never calls `builtin_exit`.** `process_command` handles `exit` itself: it remembers the line, shuts the job table down and exits. `builtin_exit` is modelled separately as `Builtins.History.Exit`.

## Model

| member | source | states |
|---|---|---|
| Common.Argc | root/src/piping.c:19-20 | the counting loop over a NULL-terminated vector stops at the first NULL, and every entry before it is a string |
| Common.Tokens | root/src/main.c:30-37 | the strings in front of the terminator, exactly `argc` of them, entry by entry |
| Common.WrapArgv | root/src/main.c:30-37 | the tokens laid out with a NULL after them form a vector whose `argc` is the token count and whose tokens read back unchanged |
| Common.ArgcIsFirstNull | root/src/expand_env.c:72-73 | any index holding the first NULL is the `argc` of the vector |
| Strings.Fields | root/src/exec_external.c:58-75 | strtok_r on `:` yields only non-empty fields that contain no separator |
| Strings.FieldsOfJoin | root/src/exec_external.c:58-75 | splitting a joined list gives the parts back, so the field split and `Join` are inverse on non-empty, separator-free parts |
| JobSpec.Initial | background_proc.c:56-61 | after `part_eight_init`, the table satisfies its invariant, the counters are 0, 1 and 0, and no job is active |
| JobSpec.FindFrom | background_proc.c:64-72 | the first used slot whose active job holds the pid, or -1 exactly when no active job holds it |
| JobSpec.MostRecentIn | background_proc.c:75-86 | the active slot with the highest job number, the first one on a tie, or -1 when no slot is active with a number above -1 |
| JobSpec.Add | background_proc.c:88-125 | error cases: EINVAL exactly for a NULL command line, NULL pids or `nprocs` outside 1..3; EBUSY exactly when the arguments pass and 10 jobs are active; ENOMEM exactly when both checks pass and either the history is full or the copy of the command line fails. The refusals leave the table unchanged and print nothing, except that a failed copy consumes one job number and nothing else. Success: the old next number is returned, the three counters each rise by 1, the new slot holds the pids with `remaining == nprocs`, other slots are unchanged, and `[n] leader` is printed |
| JobSpec.AddPreservesValid | background_proc.c:88-125 | registration keeps the table invariant, whatever the outcome: well-formed used slots, increasing job numbers, and an active count equal to the active used slots and at most 10 |
| JobSpec.CountActiveUpdate | background_proc.c:122-123 | replacing one used slot changes the active count by exactly that slot's change |
| JobSpec.ReapPid | background_proc.c:137-161 | a pid in no active job changes nothing. Otherwise the job holding it loses one running process. At the last one, it prints one `done` line with its command line, becomes inactive with `nprocs` and `remaining` at 0, and the active count falls by 1 |
| JobSpec.ReapPreservesValid | background_proc.c:137-161 | reaping one pid keeps the table invariant |
| JobSpec.ReapRetiresOnce | background_proc.c:144-159 | reaping one pid either changes neither the active set nor the count, or prints one completion for an active job, removes exactly that job from the active set, and lowers the count by 1 |
| JobSpec.CheckJobs | background_proc.c:130-179 | the reaping pass keeps the table shape and both the next slot and the next number |
| JobSpec.CheckJobsStopsAtFirstStop | background_proc.c:135-177 | the loop goes on after each reaped pid and after EINTR, and stops at the first 0, ECHILD or other error |
| JobSpec.CheckJobsStep | background_proc.c:135-177 | one waitpid result either ends the pass or is handled and followed by the rest of the pass |
| JobSpec.Poll | background_proc.c:137-172 | a result that is not a reaped pid leaves the table unchanged |
| JobSpec.CheckJobsPreservesValid | background_proc.c:130-179 | a whole reaping pass keeps the table invariant |
| JobSpec.CheckJobsCompletesOnce | background_proc.c:130-179 | every printed line completes a job that was active, no job completes twice, exactly the printed jobs leave the active set, and the active count falls by the number of lines |
| JobSpec.PrependCompletion | background_proc.c:146-159 | one completion in front of completions of the other jobs is still a set of distinct completions |
| JobSpec.RowsCount | background_proc.c:188-197 | one row per active used slot, and exactly one marked row when the marked slot is active |
| JobSpec.RowsFromActive | background_proc.c:188-197 | every row comes from an active used slot, with that slot's job number, leader pid and command line; the marked row comes from the most recent one |
| JobSpec.RowsOrdered | background_proc.c:188-197 | rows appear in slot order, so with increasing job numbers |
| JobSpec.RowsCoverActive | background_proc.c:188-197 | every active used slot has its row |
| JobSpec.ListingIsActiveJobs | background_proc.c:185-199 | the `jobs` listing has one row per active job, only active jobs, every active job, in increasing job-number order; each row shows its job's number, leader pid and command line |
| JobSpec.ListingMarksMostRecent | background_proc.c:185-199 | exactly one row carries `+` when a job is active, none otherwise, and it carries the highest job number |
| JobSpec.CountActiveZero | background_proc.c:54 | the active count is 0 exactly when no used slot is active |
| JobSpec.Shutdown | background_proc.c:201-213 | every used slot's command line is released and nothing else in it changes; the counters return to 0, 0 and 1, and the table is valid with no active job |
| JobSpec.ShutdownIdempotent | background_proc.c:201-213 | shutting down twice gives the same table as shutting down once |
| JobSpec.Run | background_proc.c:13 | over any sequence of registrations, reaping passes and listings, the invariant holds, and the job numbers handed out strictly increase and are never reused |
| JobTable.Table.constructor | root/src/background_proc.c:73-78 | the new table is the initial table |
| JobTable.Table.Init | root/src/background_proc.c:73-78 | `part_eight_init` sets every slot to zero and resets the counters: the state becomes `JobSpec.Initial()` |
| JobTable.Table.FindJobByPid | root/src/background_proc.c:81-89 | the loop returns `JobSpec.FindJob` of the current table |
| JobTable.Table.FindMostRecentActiveJobIndex | root/src/background_proc.c:92-103 | the loop returns `JobSpec.MostRecentIn` of the used slots |
| JobTable.Table.AddJob | root/src/background_proc.c:105-142 | the table, the outcome and the printed lines are those of `JobSpec.Add`, in place |
| JobTable.Table.CopyPids | root/src/background_proc.c:132 | the first `nprocs` pids are copied into the slot, and nothing else changes |
| JobTable.Table.CheckJobs | root/src/background_proc.c:147-196 | the reaping loop leaves the table and output of `JobSpec.CheckJobs`, consumes as many results as it, and keeps the invariant |
| JobTable.Table.Poll | root/src/background_proc.c:152-194 | one pass of the loop is `JobSpec.Poll` and stops exactly on 0, ECHILD or another error |
| JobTable.Table.Reap | root/src/background_proc.c:154-176 | reaping one pid in place is `JobSpec.ReapPid` |
| JobTable.Table.JobsBuiltin | root/src/background_proc.c:202-216 | the table is unchanged and the output grows by `JobSpec.Listing` |
| JobTable.Table.Shutdown | root/src/background_proc.c:218-230 | the table becomes `JobSpec.Shutdown` of the old one and stays valid, with nothing printed |
| Exec.DefaultSearchDirs | root/src/exec_external.c:52-53 | with PATH unset, `/bin` is searched, then `/usr/bin` |
| Exec.FirstHit | root/src/exec_external.c:60-76 | the first directory whose candidate passes the executable check, with none before it passing; -1 when none does |
| Exec.Resolve | root/src/exec_external.c:45-80 | nothing for NULL or ""; a command with `/` verbatim; otherwise `dir/cmd` for the first search directory whose candidate is executable, with no earlier one executable; nothing when none is |
| Exec.FindExecutable | root/src/exec_external.c:45-80 | the strtok_r loop returns `Resolve` |
| Exec.ExecuteCommand | root/src/exec_external.c:117-189 | -1 with EINVAL for a NULL vector or command. With the given path, or else the resolved one: "command not found" when there is none; the stat-based diagnostic when it fails the executable check; `fork` failing gives -1. Otherwise the result is exactly the child's pid for that path, with a wait exactly in the foreground |
| Exec.Child | root/src/exec_external.c:149-165 | the child exits with 1 exactly when the redirection fails, and with 127 when execv fails after it succeeds; otherwise it runs the path with the compacted arguments and the bound files, and no `<` or `>` is left among them |
| Exec.LaunchedChild | root/src/exec_external.c:142-165 | a launched command without redirection operators runs the resolved path on its own arguments with the shell's input and output, or exits with 127 when execv fails |
| Redirection.LastAt | root/src/io_redireciton.c:17-33 | the last occurrence of the operator that has a token after it, with none later |
| Redirection.Redirect | root/src/io_redireciton.c:11-82 | an operator in last position exits with 1 and names the missing file. Otherwise the checks run in order and the first failing one names the exit: input stat, regular file, input open, output open. When all pass, the result binds the operands of the last `<` and the last `>` and keeps exactly the compacted vector, which holds no operator |
| Redirection.CheckFiles | root/src/io_redireciton.c:35-69 | the file checks report the first failing one, in the code's order, or none |
| Redirection.Scan | root/src/io_redireciton.c:17-33 | the scan reports an error exactly when an operator is last, and otherwise the operands of the last `<` and `>`, scanning every token including operands |
| Redirection.CompactIsSubseq | root/src/io_redireciton.c:71-81 | the compacted vector is a subsequence of the input |
| Redirection.CompactNoOps | root/src/io_redireciton.c:71-81 | a vector without operators is left unchanged |
| Redirection.CompactShrinks | root/src/io_redireciton.c:71-81 | compaction never lengthens the vector |
| Redirection.CompactDropsOps | root/src/io_redireciton.c:71-81 | no `<` or `>` is left in the compacted vector |
| Redirection.NoOpsUnbound | root/src/io_redireciton.c:11-82 | a vector without operators binds no file and is passed on whole |
| Redirection.Squeeze | root/src/io_redireciton.c:72-80 | the read/write loop puts the kept tokens in order at the front and leaves the rest of the array as it was |
| Redirection.CompactArgs | root/src/io_redireciton.c:71-81 | the vector becomes the compacted tokens followed by NULL |
| Redirection.HandleIoRedirection | root/src/io_redireciton.c:11-82 | the outcome is `Redirect` of the tokens; on success the vector is compacted in place, and on an error exit it is untouched; a NULL vector changes nothing |
| ExpandEnv.RestValid | root/src/expand_env.c:41-43 | the loop over the rest of the name holds exactly when every character is a letter, digit or `_` |
| ExpandEnv.ValidName | root/src/expand_env.c:38-45 | `is_valid_env_name` holds exactly for a non-empty name that starts with a letter or `_` and continues with letters, digits or `_` |
| ExpandEnv.Expand | root/src/expand_env.c:81-98 | a token changes only when it is `$` and a valid name; it becomes the variable's value, or "" when the variable is unset |
| ExpandEnv.NotExpanded | root/src/expand_env.c:81 | `$`, `$1BAD` and `a$B` are left as they are |
| ExpandEnv.UnsetIsEmpty | root/src/expand_env.c:84-85 | `$NAME` with NAME unset becomes "" |
| ExpandEnv.ExpandArgv | root/src/expand_env.c:109-125 | tokens before the terminator are expanded; the terminator and what follows are untouched; a changed entry is an expandable token |
| ExpandEnv.ExpandArgvTokens | root/src/expand_env.c:148-166 | the in-place result has the same argc, and its tokens are the copying version's tokens, so both agree on equal inputs |
| ExpandEnv.ExpandEnvVarsDup | root/src/expand_env.c:68-102 | NULL exactly for NULL; otherwise a fresh NULL-terminated vector with as many tokens as the input, each expanded |
| ExpandEnv.ExpandEnvVarsInplace | root/src/expand_env.c:109-125 | returns 0, and the vector becomes `ExpandArgv` of the old one; a NULL vector changes nothing |
| Tilde.ExpandTilde | root/src/tilde_expansion.c:6-30 | NULL exactly for a NULL token, or a failed allocation; the token itself when it does not start with `~`, when HOME is unset, or for `~name`; otherwise a copy of HOME followed by the rest of the token, which fills the `strlen(home) + strlen(token)` allocation exactly, with its NUL |
| Tilde.ExpandTildeIdempotent | root/src/tilde_expansion.c:6-30 | when HOME does not start with `~`, expanding the result again leaves it alone |
| Tilde.Examples | root/src/tilde_expansion.c:32-48 | with HOME `/home/u`: `~`, `~/` and `~/Documents` expand; `file~name` and `~user` do not |
| Builtins.Remember | root/src/internal_command_execution.c:15-30 | NULL changes nothing; otherwise the command is the new last entry after the last two older ones, and the history never holds more than 3 |
| Builtins.ReplayKeepsLastThree | root/src/internal_command_execution.c:15-30 | after any sequence of additions, the history is the last three or fewer non-NULL commands, in insertion order |
| Builtins.History.constructor | root/src/internal_command_execution.c:10-11 | the history starts empty |
| Builtins.History.Add | root/src/internal_command_execution.c:15-30 | the shifting loop leaves exactly `Remember` of the old history, within the three slots |
| Builtins.Entries | root/src/internal_command_execution.c:46-48 | the listing rows are the commands in order, numbered from 1 |
| Builtins.ExitReport | root/src/internal_command_execution.c:35-53 | a debug line, then "No valid commands" for an empty history, or a header and every command numbered from 1 |
| Builtins.History.Exit | root/src/internal_command_execution.c:35-53 | the listing loop prints `ExitReport` of the history |
| Builtins.Cd | root/src/internal_command_execution.c:57-90 | 1 exactly when a directory was entered, 0 exactly with an error; no argument targets HOME, and HOME unset is an error; one argument targets it; more than one is an error. With a target, the result is 1 and that directory when chdir accepts it, else 0 with the chdir error; the status is always 0 or 1 |
| Piping.LastIsBackground | root/src/piping.c:17-23 | false for NULL or empty; otherwise true exactly when the last token is `&` |
| Piping.StripBackground | root/src/piping.c:33-39 | the `&` test, and when it holds, only the last token is replaced by NULL |
| Piping.StrippedTokens | root/src/piping.c:35-39 | after stripping, the tokens are the old ones without the last |
| Piping.ChildOf | root/src/piping.c:59-122 | stage i reads the pipe before it exactly when i > 0, and writes the pipe after it exactly when i < n-1, with no other binding; it closes both ends of every allocated pipe, and only those, before it runs |
| Piping.Connected | root/src/piping.c:63-66 | pipe i+1 is written by stage i alone and read by stage i+1 alone |
| Piping.ParentCloses | root/src/piping.c:126-135 | the parent closes both ends of every pipe |
| Piping.Launch | root/src/piping.c:41-142 | it gives up exactly when a pipe() fails, with as many pipes created as succeeded; otherwise n-1 pipes, the children in stage order, and n waits, or n-1 when the last stage is in the background |
| Piping.PlanAsWritten | root/src/piping.c:41-57 | aborts exactly when pipe1 fails, or pipe2 fails with three stages |
| Piping.Plan | root/src/piping.c:41-142 | no pipe end the shell created is ever left open, and every child closes every allocated pipe |
| Piping.PipeTwoFailureLeaks | root/src/piping.c:50-57 | as written, a failed second pipe() leaves both ends of pipe1 open |
| Piping.PlanDiffersOnlyOnPipeTwoFailure | root/src/piping.c:41-57 | the corrected plan differs from the code as written only on that failure |
| Piping.ExecutePipeline | root/src/piping.c:29-143 | strips a final `&` from the last stage in place and carries out the corrected `Plan` (see "## Findings") |
| Piping.Run | root/src/piping.c:41-142 | the pipe, fork, close and wait steps are those of the corrected `Plan` (see "## Findings") |
| Piping.WaitLoop | root/src/piping.c:138-142 | n waits, or n-1 when the last stage is in the background |
| Shell.JoinFits | root/src/main.c:13-17 | the joined line of the tokens and its NUL take exactly the `len` the first loop computes |
| Shell.JoinSnoc | root/src/main.c:20-23 | each strcat round appends a space and the next token |
| Shell.JoinArgv | root/src/main.c:11-25 | nothing for a NULL or empty vector; otherwise the tokens joined by single spaces, in a buffer larger than the line plus its NUL |
| Shell.LineBudget | root/src/main.c:13-16 | the buffer budget: every token's length plus one, summed over the vector |
| Shell.JoinTokens | root/src/main.c:19-23 | the strcat loop builds exactly the tokens separated by single spaces |
| Shell.TokenlistToArgv | root/src/main.c:30-37 | nothing for a NULL or empty list; otherwise the tokens in order followed by NULL |
| Shell.CountPipes | root/src/main.c:46-49 | the number of `\|` tokens |
| Shell.SplitStages | root/src/main.c:57-73 | one stage more than there are `\|` tokens, none containing `\|`, and joining them with `\|` gives the tokens back |
| Shell.SplitIsUnique | root/src/main.c:57-73 | only one list of `\|`-free stages joins back to the given tokens, so the split is the inverse of the join |
| Shell.StripAmpersand | root/src/main.c:84-92 | a final `&` alone sets background mode and is replaced by NULL; `argc` counts the tokens left; without it nothing changes |
| Shell.TrimInput | root/src/main.c:169-174 | trailing white space becomes NUL and nothing before it changes; the start skips leading white space; the trimmed line is empty exactly when the input is all white space |
| Shell.Stripped | root/src/main.c:88-92 | exactly one token shorter when the line ends in `&`, else the same length, and always a prefix of the tokens |
| Shell.TildeAll | root/src/main.c:100-107 | every token replaced by its tilde expansion |
| Shell.ExpandTildes | root/src/main.c:100-107 | the tilde loop keeps the terminator and turns the tokens into `TildeAll` of them |
| Shell.CopyArgv | root/src/main.c:94-98 | a fresh vector holding the `argc` tokens, then NULL |
| Shell.ArgvCopy | root/src/main.c:80-98 | the copied vector holds the tokens without a final `&`, and background mode is set exactly for one |
| Shell.ExpandWords | root/src/main.c:100-110 | the tilde loop, then in-place `$NAME` expansion, leave the expanded tokens followed by NULL |
| Shell.PrepareArgs | root/src/main.c:80-110 | the vector process_command dispatches on holds `Words` of the tokens |
| Shell.ClassifyAsWritten | root/src/main.c:112-150 | the dispatch reads a NULL command exactly when no word is left |
| Shell.Classify | root/src/main.c:112-150 | the corrected dispatch is never undefined, ignores an empty command, and otherwise agrees with the code |
| Shell.LoneAmpersandIsUndefined | root/src/main.c:82-113 | the line `&` passes the empty-line checks but leaves no word, so the dispatch as written compares NULL |
| Shell.RunCommand | root/src/main.c:112-151 | each branch's effect on the job table, the output and the history: `exit` shuts the table down; `cd` is remembered only on success; `jobs` lists the table; an external command is launched on the resolved path and registered as a one-pid job led by the child only when it started in the background |
| Shell.RunExit | root/src/main.c:113-117 | the line is remembered and the job table shut down |
| Shell.RunCd | root/src/main.c:118-122 | the result is `builtin_cd`'s, and the line is remembered exactly when it returns 1 |
| Shell.RunJobs | root/src/main.c:123-126 | the line is remembered and the listing printed; the table is unchanged |
| Shell.RunExternal | root/src/main.c:127-150 | the launch is `execute_command` on the `find_executable` path; a job is added only for a positive pid in the background, with that pid as its only pid and its leader |
| Shell.RunPipeline | root/src/main.c:52-78 | the stages are the split of the tokens, and two- and three-stage pipelines are carried out by the corrected `Plan` with the last stage's `&` test |
| Shell.ProcessCommand | root/src/main.c:42-157 | a NULL or empty list does nothing; a pipeline touches neither the job table, the output nor the history, so background pipelines are never registered; any other command has the effect of `RunCommand` on the prepared words |
| Shell.Step | root/src/main.c:162-191 | a blank line runs nothing and only reaps; any other line has exactly the effect of `process_command` on the table, output and history, and is followed by a reaping pass over the table the command left, except after `exit` |

## Left out

- The system calls themselves are not modelled: `fork`, `execv`, `waitpid`, `wait`, `pipe`, `dup2`, `close`, `open`, `stat`, `access`, `chdir`, `signal`. They are oracles, as described above. Real processes and concurrency are out of scope; a pipeline is only its descriptor plan.
- Piping.Plan: a `fork` that returns -1 inside `execute_pipeline` is not modelled; every stage is planned as forked. The code never tests for it: that stage does not run, and the parent still waits for it.
- Redirection.Redirect: the exits with status 1 after a failed `dup2` of the input or output file are not modelled; `dup2` is taken to succeed.
- `malloc`, `calloc` and `strdup` failures are not modelled: their NULL results and early returns are absent from the model. The exceptions are the command-line copy in `part_eight_add_job`, whose failure leaves a job-number gap, and the allocation in `expand_tilde`.
- Shell.ExpandTildes and Shell.PrepareArgs: they do not model a NULL from `expand_tilde` after a failed allocation. That NULL would cut the vector short at that token.
- ExpandEnv.ExpandEnvVarsInplace: it does not model the -1 returned when `strdup` fails.
- Builtins.History.Add: it does not model a failed `strdup` storing NULL in the history.
- Builtins.Cd: it does not model the `getcwd`/`setenv("PWD")` update after a successful `chdir`.
- Shell.RunExit: it does not model the `exit(0)` that ends the process after the shutdown.
- Shell.RunPipeline: it does not model pipelines of more than three stages. For four or more stages `execute_pipeline` creates only the first pipe and forks only the first two stages, joined by it; the later stages never run. It then calls `wait(NULL)` once per stage (once less with a final `&`) for those two children. The model records the split and plans nothing for such pipelines.
- Piping.ExecutePipeline, Piping.Run, Shell.RunPipeline, Shell.ProcessCommand and Shell.Step: when the second `pipe()` of a three-stage pipeline fails, they follow the corrected `Piping.Plan` and close both ends of the first pipe. The code leaves them open, as `Piping.PlanAsWritten` states.
- `execute_search` is not part of this model. `piping.c` calls it to run each stage, but it is declared and not defined in any of these files. The stage's command is therefore only named in the plan (`Child.stage`), not resolved.
- Piping.ExecutePipeline: it does not model the children running their commands or exiting with 1 afterwards.
- Printing is modelled as appending structured lines. `JobSpec.Render` gives their `printf` text. Buffering, `fflush`, `perror` and `stderr` messages are left out, except the kind of error `execute_command` reports.
- The lexer (`get_tokens`, `get_input`) is not part of this model; a turn of the main loop takes the tokens as a parameter. The prompt (`prompt.c`) is not modelled: it only prints.
- `path_search.c` is not modelled: it is a second PATH search fused with `execv`. `part_7.c` is not modelled: it is an older copy of the pipeline code. `root/obj/main.c` is not modelled: it is an unfinished stub.
- `isalpha`, `isalnum` and `isspace` are treated as ASCII; locales are not modelled.

## Findings

| source | as written | input that shows it | evidently intended | confidence | as-written member | corrected member |
|---|---|---|---|---|---|---|
| root/src/main.c:84-113 | A line that is a lone `&` passes both empty checks. The `&` is then stripped, which leaves `argc` 0, and `strcmp(dup_argv[0], "exit")` is given NULL | the input line `&` (tokens `["&"]`) | a command with no words left is ignored like an empty line | not executed | Shell.ClassifyAsWritten, Shell.LoneAmpersandIsUndefined | Shell.Classify |
| root/src/piping.c:50-57 | when the second `pipe()` fails, the function returns without closing `pipe1` | a three-stage pipeline with `pipe1` created and `pipe2` failing | both ends of `pipe1` are closed before returning | not executed | Piping.PlanAsWritten, Piping.PipeTwoFailureLeaks | Piping.Plan |
