# A verified model of a small Unix shell's core

The shell reads a command line and cuts it into words. It parses the words
into a chain of `struct Command` nodes, with one node per word or operator
(`|`, `&`, `||`, `&&`, `;`). An executor then runs the chain: `executeCommand`
picks it from the first operator of the line and the head node's flag. The
shell also keeps two linked lists:

- a table of background jobs (`jobs.c`), which `jobs`, `fg` and the poll
  before each prompt read and edit;
- a history of command lines (`history.c`), newest first, which prints
  oldest first.

This project models that core in Dafny and proves what each operation
computes. The modules are:

- `CStrings` (`cstrings.dfy`): the C library pieces the core relies on.
  It covers C strings (the NUL terminator is implicit), `printf("%d")` as
  `Itoa`, `atoi` as `Atoi`, and `realloc` of a pointer buffer.
- `Tokenizer` (`tokenizer.dfy`): `splitStringWithoutSpaces` of `bash_func.c`.
  It is proved against `Tokens(s, seps)`, a reference definition: the
  maximal runs of `s` that contain no separator.
- `RunLine` (`runline.dfy`): `splitString` of `run-line.c`. It is proved
  against the same reference, with only the space as separator. Lemmas
  compare the two tokenizers.
- `Parser` (`parser.dfy`): `parseCommandsFromWords` as a method over
  `Command` objects. The shape of the chain is specified on the tokens'
  operator codes: `Next` gives where each `next` pointer points, and
  `Chain` gives the walk from a node.
- `Executor` (`executor.dfy`): the executor choice of `executeCommand`, and
  the stop rules of the `&&`, `||` and `;` executors. The exit statuses
  that `wait` would report are an input.
- `Jobs` (`jobs.dfy`): the job table as a `JobList` class over `JobNode`
  records. `waitpid`'s results are an input to `updateJobList`.
  `bringToForeground` returns the signal or wait it would issue and the
  lines it would print.
- `History` (`history.dfy`): the list of `history.c` as a `HistoryList`
  class over `HistoryNode` records. `printHistory` copies the records into a 256-slot array and
  prints them in reverse.

Output is returned as the sequence of lines that `printf` would write.

The model follows the code where the code departs from its evident intent:

- A `;` token's node keeps flag 0, and `;` does not change the running
  flag. At `bash_func.c:179-180` the code compares with `==` where an
  assignment of 5 was meant.
- The chain walked by the `&&`, `||` and `;` executors also passes through
  operator nodes that follow the last word node.
- With an identifier, `bringToForeground` interrupts a found `cat` or `wc`
  job with `kill(-atoi(identifier), SIGINT)`, that is, it signals process
  group `atoi(identifier)`; any other found job is awaited. When the job
  was found by command name, `atoi` gives 0, and `kill(0, SIGINT)` signals
  the shell's own group (`Jobs.InterruptByNameTargetsOwnGroup`).
- `removeFromJobList` removes the first record with the pid. Without an
  identifier, `bringToForeground` removes by the last job's pid, so when
  pids repeat an earlier job leaves the table (`Jobs.RemoveLastJobsPid`).

## Model

| member | source | states |
|---|---|---|
| CStrings.AtoiItoa | jobs.c:173 | what `printf("%d")` writes for any integer, `atoi` reads back as that integer, whatever non-digit text follows |
| CStrings.AtoiOfNonNumeric | jobs.c:173 | `atoi` of text that starts with neither a space, a digit nor a sign is 0 |
| CStrings.Realloc | bash_func.c:72-79 | the grown buffer has the requested size and keeps every old entry in place |
| Tokenizer.SplitStringWithoutSpaces | bash_func.c:53-123 | the stored words are exactly the maximal runs of the input without space, tab or newline, in order; the buffer has 10 slots or fewer than twice as many slots as words |
| Tokenizer.StoreWord | bash_func.c:69-90 | storing a word keeps the earlier words, puts the new one after them, and doubles the buffer exactly when it is full |
| Tokenizer.ScanFindsTokens | bash_func.c:67-120 | the character loop with the `inWord`/`start` state and the final-word step stores the reference tokens of the rest of the line after those found so far |
| Tokenizer.TokensAreWellFormed | bash_func.c:68-96 | every word is non-empty and holds no separator |
| Tokenizer.NoTokensIffAllSeparators | bash_func.c:67-120 | a line yields no word if and only if it holds nothing but separators |
| Tokenizer.TokensOfJoin | bash_func.c:53-123 | round trip: words without separators, joined with one separator, are split back into the same words |
| Tokenizer.TokensDependOnlyOnSeparatorsPresent | bash_func.c:68 | two separator sets that agree on every character of a line split it alike |
| RunLine.SpaceScanFindsTokens | run-line.c:56-73 | the loop over positions 0 to the terminator stores, after the words found so far, the space-separated tokens from the current word's start |
| RunLine.SplitString | run-line.c:47-74 | the stored words are the maximal runs without a space, in order, and the buffer has one slot more than the words |
| RunLine.SplittersAgreeWithoutTabsOrNewlines | run-line.c:57 | on a line without tabs and newlines both tokenizers give the same words |
| RunLine.TabsAndNewlinesStayInWords | run-line.c:57 | any space-free text is one word to `splitString`, tabs and newlines included, while `splitStringWithoutSpaces` cuts it when it holds a tab or a newline |
| RunLine.TabsAndNewlinesSeparateInBashFunc | bash_func.c:68 | any two words joined by a tab or a newline are two words to `splitStringWithoutSpaces` and one word to `splitString` |
| Parser.Command.constructor | bash_func.c:153-156 | a node holding the given argument vector and flag, with no successor |
| Parser.FindFirstOperator | bash_func.c:133-150 | `firstOperatorFlag` becomes the code of the first operator token, and is left as it was when there is none |
| Parser.ClassifyToken | bash_func.c:166-205 | a token is a word exactly when it is not an operator; a word node gets the token and the running flag; an operator node other than `;` gets its code, which becomes the running flag; a `;` node gets 0 and leaves the running flag |
| Parser.AppendNode | bash_func.c:152-205 | the new node is linked after the previous node and, for a word, from the last word node; only those two `next` fields change |
| Parser.ParseToken | bash_func.c:152-206 | one iteration of the node loop: a fresh node for token i, after which the nodes, their flags, argument vectors and `next` fields, `current`, `lastWordCommand` and `currentFlag` are those the chain's specification gives for the first i+1 tokens |
| Parser.ParseCommandsFromWords | bash_func.c:127-209 | one fresh, distinct node per token, in token order, headed by the first; each node holds its argument vector and flag, and its `next` points where `Next` says |
| Parser.NextPointersAppend | bash_func.c:158-164 | parsing one more token relinks the previous node and, for a word, the last word node to the new node, and leaves every other pointer |
| Parser.LastWordIsWordWithoutSuccessor | bash_func.c:198-202 | `lastWordCommand` is the word node that has no later word node, both ways |
| Parser.ChainFromWord | bash_func.c:197-200 | the walk from a word node visits every later word node in order, then the operator nodes after the last word |
| Parser.ChainOfLineEndingInWord | bash_func.c:197-200 | when the line ends in a word, the walk from a word node visits exactly the later word nodes |
| Parser.ChainOfOperators | bash_func.c:158-164 | from a node followed only by operators, the walk visits every later node in token order |
| Parser.RunningFlagIsLatestOperator | bash_func.c:166-177 | a word's flag is the code of the latest pipe, background, OR or AND operator before it |
| Parser.RunningFlagWithoutOperator | bash_func.c:131 | a word with no such operator before it has flag 0 |
| Executor.SelectExecutor | bash_func.c:393-422 | a null chain runs nothing, and every non-null chain runs some executor |
| Executor.DispatchFollowsFirstOperator | bash_func.c:393-422 | on a parsed line, the executor is the one the first operator token selects, and the default single command when the line has no operator |
| Executor.RunCountStopsAtFirstStop | bash_func.c:241-282 | the commands run are a prefix of the chain; no command but the last triggers the stop rule; the walk ends early only at one that does |
| Executor.AndRunsUntilFirstFailure | bash_func.c:241-260 | AND (`executeAndOperator`) runs commands until and including the first with a non-zero status |
| Executor.OrRunsUntilFirstSuccess | bash_func.c:263-282 | OR (`executeOrOperator`) runs commands until and including the first with status 0 |
| Executor.SeqRunsAll | bash_func.c:373-389 | the sequence executor runs every command of the chain |
| Executor.OrIsAndOnFlippedStatuses | bash_func.c:241-282 | OR runs as many commands as AND does once success and failure swap |
| Executor.ExecuteAndOperator | bash_func.c:241-260 | the loop runs exactly the commands the AND stop rule allows |
| Executor.ExecuteOrOperator | bash_func.c:263-282 | the loop runs exactly the commands the OR stop rule allows |
| Executor.ExecuteSeqOperator | bash_func.c:373-389 | the loop runs exactly the commands the sequence rule allows |
| Jobs.JobNode.constructor | jobs.c:20-34 | a record holding the given pid, group, command and state, with no successor |
| Jobs.JobList.constructor | bash.c:14 | an empty table |
| Jobs.JobList.AddJob | jobs.c:37-47 | the new record is appended at the tail; the table is the old one plus the new job |
| Jobs.JobList.JobCount | jobs.c:50-60 | the count is the number of jobs in the table |
| Jobs.JobList.Unlink | jobs.c:69-73 | unlinking the record at a position through its predecessor, or as the head, removes exactly that job and keeps the others in order |
| Jobs.JobList.RemoveFromJobList | jobs.c:63-82 | the table loses the first job with the pid, and stays as it was when none has it |
| Jobs.RemoveFirstPidRemovesOnlyFirstMatch | jobs.c:63-82 | with no matching pid the table is unchanged; otherwise exactly one job, the first match, goes, and the rest keep their order |
| Jobs.RemoveLastJobsPid | jobs.c:154-165 | removing by the last job's pid removes the last job when no earlier job has that pid; otherwise it removes the first earlier job with it, and the last job stays at the end |
| Jobs.JobList.PrintJobsList | jobs.c:85-91 | one line per job, in table order, showing pid, state and command |
| Jobs.JobList.PrintJobs | jobs.c:94-100 | the no-jobs message exactly when the table is empty, and the job lines otherwise |
| Jobs.JobLineShowsPid | jobs.c:88 | the number after the bracket of a job line is the job's pid |
| Jobs.JobLineIsNotNoJobsMessage | jobs.c:94-100 | a job line differs from the no-jobs message |
| Jobs.JobList.UpdateJobList | jobs.c:103-138 | the shell exits exactly when a poll returns -1; otherwise the table keeps the jobs polled with 0, in order, and drops the rest |
| Jobs.JobList.PollOne | jobs.c:107-136 | one poll keeps a job whose result is 0, or unlinks it, and advances to the next record |
| Jobs.JobList.RemovePolled | jobs.c:126-135 | a finished job is unlinked through its predecessor, or as the head, and the walk continues at its successor |
| Jobs.ReconcileKeepsRunningJobsInOrder | jobs.c:103-138 | the poll aborts if and only if some result is -1; the surviving jobs are exactly those with result 0, in table order |
| Jobs.StillRunningOnlyZeros | jobs.c:114-117 | only positions whose poll returned 0 survive |
| Jobs.StillRunningAllZeros | jobs.c:114-117 | every position whose poll returned 0 survives |
| Jobs.StillRunningIncreasing | jobs.c:107-137 | the survivors keep their relative order |
| Jobs.JobList.BringToForeground | jobs.c:142-207 | the action, the printed lines and the new table are those `ForegroundOf` gives for the identifier or its absence |
| Jobs.JobList.ForegroundLastJob | jobs.c:144-170 | without an identifier: the last job is interrupted (`cat`, `wc`) or awaited and reported, then removed by its pid; an empty table prints the no-jobs message |
| Jobs.JobList.ForegroundByIdentifier | jobs.c:171-206 | with an identifier: the action, the printed lines and the new table are those `ForegroundOf` gives for it — the first job matching `atoi(identifier)` or the identifier is interrupted or awaited and removed, or the not-found line is printed and the table kept |
| Jobs.JobList.FindByIdentifier | jobs.c:173-203 | the search finds the first job whose pid is `atoi(identifier)` or whose command is the identifier, with its predecessor, and finds nothing exactly when none matches |
| Jobs.JobList.ForegroundJobAt | jobs.c:181-198 | the found job is interrupted through the group of the looked-up pid or awaited and reported with the table's size, then unlinked |
| Jobs.ForegroundByIdentifierRemovesMatch | jobs.c:171-206 | with an identifier, the first matching job leaves the table and something is done to it; without a match the table is unchanged and the not-found line is printed |
| Jobs.ForegroundWithoutIdentifierRemovesLast | jobs.c:144-170 | without an identifier and with distinct pids, the last job leaves the table and is interrupted through its own group or awaited |
| Jobs.InterruptByNameTargetsOwnGroup | jobs.c:173-182 | a `cat` job looked up by name is interrupted with `kill(0, SIGINT)`, so the signal goes to the shell's own group |
| Jobs.LinkedNodesDistinct | jobs.c:11-17 | records chained by `next` to a null end are pairwise distinct |
| History.HistoryNode.constructor | history.c:14-25 | a record holding the command, with no successor |
| History.HistoryList.constructor | bash.c:15 | an empty history |
| History.HistoryList.AddToHistory | history.c:28-32 | the new record becomes the head; the commands are the new one followed by the old ones |
| History.HistoryList.PrintHistory | history.c:35-51 | the lines are the commands from oldest to newest, numbered from 1 |
| History.ListingAfterAdd | history.c:28-51 | after an add, the listing is the old listing followed by the new command with the next number |
| History.ListingOfPushAll | history.c:28-51 | round trip: commands added one by one are listed after the older ones, in the order they were added, numbered on consecutively |
| History.ListingOfFreshHistory | history.c:28-51 | commands added to an empty history are listed as added, numbered from 1 |
| History.HistoryLineShowsCount | history.c:48 | `atoi` reads a history line's number back |
| History.HistoryList.ClearHistory | history.c:78-81 | the history is empty afterwards, and every record of the old list is released |
| History.HistoryList.FreeHistoryNode | history.c:67-75 | the handle is null afterwards, whether or not it held a record, and only the record it pointed to is released |

## Left out

- Reading input (`characterInput`, `getInputString`) and the prompt loops
  in `bash.c`, `bash_struct.c` and `bash-functions.c` are not part of this
  model. Neither are `pwd`, `printAllWords` or `main`.
- Process creation and I/O (`fork`, `execvp`, `pipe`, `dup2`, `kill`,
  `waitpid`, `wait`) are not performed. The statuses and poll results are
  inputs, and signals and waits are returned as `Action` values.
- `executePipeline` is not modelled: it only wires processes together and
  decides nothing about the chain. The `&` branch of `executeCommand` does
  nothing and is modelled as the `Background` choice.
- Executor.ExecuteAndOperator, ExecuteOrOperator and ExecuteSeqOperator
  count the commands run. They do not follow the `next` pointers of a
  `Command` object; the chain's node order is `Parser.Chain`.
- Jobs.JobList.UpdateJobList: the "Done"/"Stopped" notice at
  `jobs.c:119-124` tests `status`, which is never written because
  `waitpid` is passed NULL. It is therefore not modelled.
- Memory release (`free`, `freeHistory`'s loop) is not performed, because
  Dafny has no deallocation. `ClearHistory` and `FreeHistoryNode` only name
  the records they release, as a ghost set. Allocation failures that end
  the process with `exit(1)` are not modelled either.
- CStrings.Atoi does not model overflow, which C leaves undefined: values
  are unbounded integers, and so are pids and counts.
- History.HistoryList.PrintHistory requires at most 256 records. Beyond
  that, the C code writes past its local array.
- CStrings.Realloc zero-fills the new slots, where C leaves them
  uninitialised. No word is read from those slots before it is written.
- `createJob` and `createHistoryNode` copy the command with `strdup`. Here
  the record holds the string value, which has the same effect because
  strings are immutable.
