# sysinit, proved

A Dafny model of `sysinit`, the first process of CheviotOS, with proofs about the behaviour its three parts are for:

- the **bootstrap script interpreter** (`RunS.dfy` over the grammar in `Lexer.dfy` and the meaning in `Script.dfy`): one cursor over the script, one 256-byte line buffer that the tokenizer cuts up in place, one hidden tokenizer cursor, one array of pointers into the buffer. The running interpreter makes exactly the requests of a pure reading of the script, and that reading is compositional, survives edits, and has a normal form;
- the **session table** (`Sessions.dfy`, a doubly linked heap list, over the run model in `SessionModel.dfy` and `StartModel.dfy`; `Argv.dfy` for the getty arguments; `Reaper.dfy`, `RunRc.dfy` for the two wait loops): which sessions exist, which getty each owns, what every sequence of child events and fork failures makes of them, and when the reaper is done;
- the **life of the process** (`Lifecycle.dfy`, `MessageLoop.dfy`, `Sysinit.dfy`): the state machine, the message loop, and the whole run up to the one call of `shutdown_os`.

`CStrings.dfy` holds what all lexers share: what a pointer into a buffer reads as, and in-place cuts.

A C pointer into a buffer is an offset, with `None` for NULL; a pointer is read back through `CStr`, so the proofs that earlier tokens stay intact are about the mutated buffer. System calls are recorded requests; their answers (fork, waitpid, kill, malloc, the tty table, messages) are inputs over which every statement is quantified. The wait loops run over a finite list of answers and report "still waiting" when it is used up, so each statement holds for every prefix of every infinite history. `dafny verify dfyconfig.toml` checks everything.

## What the proofs show about the code

- Every line the interpreter reaches must have at most 255 characters (`Script.Fits`); the line reader does not test it. `ComposeFits` says what that means for joined scripts, `StripKeepsTrace` what it means for comments, and `TracesExactly` which requests a script within the limit can make at all: quoting everything can push a line past it, so scripts are printed with the fewest characters that keep the tokens apart (`Lexer.ShortLinesExactly`).
- `collect_process` keeps sessions and live gettys in one-to-one correspondence throughout a run if and only if no respawn after an exit fails (`CorrespondenceKept`). A getty that merely stops is replaced too and lives on unowned; `do_run_rc` asks for stops with WUNTRACED and passes them on. So every live getty belongs to a session throughout if and only if, besides, no respawn after a stop succeeds (`GettysExactly`, `StoppedGettyIsOrphaned`).
- The reaper's loop tests `errno` after successful calls as well. It reaps everything unless `errno` was ECHILD beforehand, the first answer is an exit, and there was more than one child (`DrainedExactly`, with the concrete `StaleErrnoLeavesChildren`). A failing fork in `do_run_rc` can end with just such a waitpid; main does not call `do_run_rc` today.
- The loop that starts sessions stands still for ever exactly when the first session that does not start already has a process (`StartEndings`); on a list built from empty it always ends (`FreshTableEnds`). As `started_session_cnt` is never incremented, the first fork failure skips the message loop (`RunsToShutdown`, `RunIs`), and the sessions from that one on are never freed (`SessionsLeft`).
- The repository's text says the message loop cleans up after terminated sessions (`README.md:23-24`); the code waits for children only in the reaper and the rc handlers, and the model follows the code. `setenv` has a handler but no entry in the command table, so it is an unknown command.

## Model

| member | source | states |
|---|---|---|
| Lexer.LinesReconstruct | sysinit/run_s.c:177-197 | the lines read, interleaved with the CR or LF bytes consumed, are the script, for every script |
| Lexer.LinesUnique | sysinit/run_s.c:182-192 | the decomposition into lines and terminators is the only one of its shape, so reading inverts writing |
| Lexer.TokenBound | sysinit/run_s.c:213-242 | a line of n characters has at most (n + 1) / 2 tokens |
| Lexer.TokenBoundTight | sysinit/run_s.c:213-242 | at every length some line reaches that bound |
| Lexer.PrintedTokensRoundTrip | sysinit/run_s.c:203-243 | printing any list of lexable tokens, quoted where possible, and tokenizing the line gives the list back |
| Lexer.ShortestRoundTrip | sysinit/run_s.c:213-242 | the line with one quote in front of each token that needs one, one character between tokens and nothing at the end has exactly the tokens it was made of |
| Lexer.ShortestIsShortest | sysinit/run_s.c:213-242 | no line with the same tokens is shorter |
| Lexer.TokensAreLexable | sysinit/run_s.c:203-243 | every token of every line is lexable and made of characters of the line |
| Lexer.LexableExactly | sysinit/run_s.c:203-243 | the token lists lines can have are exactly the lists of lexable tokens, both directions |
| Lexer.ShortLinesExactly | sysinit/run_s.c:203-243 | the token lists of lines of at most n characters are exactly the lists of lexable tokens whose shortest line has at most n, for every n |
| Script.Compose | sysinit/run_s.c:136-168 | two scripts joined by a CR or LF do what the first does and then what the second does, unless the first exits |
| Script.ComposeFits | sysinit/run_s.c:182-194 | the joined script fits the line buffer if and only if its parts do, the second only if it is reached |
| Script.ExitIsLast | sysinit/run_s.c:366-380 | nothing is requested after the exit of a waitfor without a path |
| Script.CrLfKeepsTrace | sysinit/run_s.c:186-192 | replacing every LF by CR LF changes neither the requests nor the fit, in any script |
| Script.BlankOrCommentExactly | sysinit/run_s.c:141-147 | the lines the dispatcher skips are exactly those whose characters are blank or whose first token is empty or starts with # |
| Script.BlankOrCommentIsSilent | sysinit/run_s.c:141-147 | such a line makes no request |
| Script.MeaningExactly | sysinit/run_s.c:141-167 | for every line and every request, the line makes it if and only if its tokens are the command word with the arguments in order, whatever follows them; a device type is known by its first letter; any other line requests nothing |
| Script.FurtherTokensIgnored | sysinit/run_s.c:366-463 | tokens behind the ones a command takes change nothing, and the process exits exactly for a line of the one token waitfor |
| Script.StripKeepsTrace | sysinit/run_s.c:138-147 | removing all of them keeps the requests of the script; the script fits the line buffer if and only if the rest does and every such line that is reached has at most 255 characters |
| Script.BlanksAndCommentsAreFree | sysinit/run_s.c:138-147 | any number of them may be inserted or removed anywhere; a script that fits still does if and only if the blank and comment lines reached have at most 255 characters |
| Script.TraceOfPrinted | sysinit/run_s.c:177-243 | the quoting round trip through the line reader and the tokenizer, within the line buffer exactly when the printed line has at most 255 characters |
| Script.PrintedScriptRuns | sysinit/run_s.c:145-167 | a list of effects printed as a script performs exactly that list; the script is a C string, and it fits the line buffer if and only if every effect has a line that does |
| Script.TraceIsPrintable | sysinit/run_s.c:145-167 | every request of every script can be printed back, and if the script fits the line buffer on a line that fits |
| Script.NormalForm | sysinit/run_s.c:124-171 | every script does the same as the printed list of its requests, which is a C string and fits the line buffer if the script does |
| Script.TracesExactly | sysinit/run_s.c:124-197 | the request lists of scripts the interpreter can run (C strings, every line reached within the buffer) are exactly those with any exit last in which each request has a line of at most 255 characters, counted token by token |
| RunS.TokenInPlace | sysinit/run_s.c:213-242 | cutting at the separator in the buffer is taking a token off the line and leaving the rest |
| RunS.Interpreter.ReadLine | sysinit/run_s.c:177-197 | the buffer reads as the next line, the cursor strictly advances and what is left is the rest of the script; NULL exactly at the end |
| RunS.Interpreter.Tokenize | sysinit/run_s.c:203-243 | the result points to the next token of what was left, the cursor strictly advances, only the separator behind the token changes, and all earlier strings read as before |
| RunS.Interpreter.CmdStart | sysinit/run_s.c:250-285 | the argument array holds exactly the tokens after the command word, each read back from the buffer, and behind them a NULL inside the array, whatever it held before; the child gets these tokens |
| RunS.Interpreter.CmdMknod | sysinit/run_s.c:292-337 | takes three tokens in order and requests a node only for type letter c or b |
| RunS.Interpreter.CmdWaitFor | sysinit/run_s.c:366-392 | exits the process exactly when no token is left, otherwise waits for the first token whatever follows it |
| RunS.Interpreter.CmdSleep | sysinit/run_s.c:399-413 | requests a sleep of the first token, nothing without one |
| RunS.Interpreter.CmdChdir | sysinit/run_s.c:344-355 | requests a change to the first token, nothing without one |
| RunS.Interpreter.CmdPivot | sysinit/run_s.c:420-438 | requests a pivot with new root first and old root second, nothing with fewer tokens |
| RunS.Interpreter.CmdRenameMount | sysinit/run_s.c:445-463 | requests a rename with new path first and old path second, nothing with fewer tokens |
| RunS.Interpreter.RunLine | sysinit/run_s.c:138-167 | a line in the buffer makes exactly the request the line means |
| RunS.Interpreter.ProcessBootstrapScript | sysinit/run_s.c:124-171 | -1 for a missing script; otherwise terminates with exactly the requests the script means, from any state of cursors, buffer and array, and without writing the script |
| Argv.WordsAreWords | sysinit/sessions.c:359-374 | every argument is non-empty and free of the characters space and tab |
| Argv.OneWord | sysinit/sessions.c:359-374 | a non-empty text without space and tab is one argument |
| Argv.JoinedWordsSplit | sysinit/sessions.c:356-377 | splitting words joined by spaces gives the words back |
| Argv.WordsOfJoin | sysinit/sessions.c:334-340 | the words of two texts with a space or a tab between them are the words of both in order |
| Argv.WordBound | sysinit/sessions.c:362-374 | a command of n characters has at most (n + 1) / 2 words, so words and NULL fit the allocation |
| Argv.WordBoundTight | sysinit/sessions.c:362-374 | at every length some command needs every slot |
| Argv.WordsOfGettyLine | sysinit/sessions.c:334-340 | the getty command line has the words of both columns, and a plain tty name is its last word |
| Argv.Strtok.Next | sysinit/sessions.c:368-374 | each strtok call takes the next word off, in place, and earlier words stay intact |
| Argv.ConstructArgv | sysinit/sessions.c:356-377 | null without memory or words; otherwise an array of the allocated size that reads as exactly the words, every store in bounds |
| Argv.SetupArgv | sysinit/sessions.c:327-350 | the argument vector is the words of the getty column followed by those of the name, each non-empty and free of space and tab |
| SessionModel.CollectFrame | sysinit/sessions.c:113-143 | a child event touches at most the first session with its pid: it goes if marked, else only its pid may change; all others stay as they are and in order; an unknown pid changes nothing |
| SessionModel.CorrespondenceKept | sysinit/sessions.c:113-143 | over every run of child events, stops included: sessions and live gettys stay one to one throughout if and only if no respawn after an exit fails; at the end they are if and only if all losses were repaired, which exits alone never do |
| SessionModel.GettysRun | sysinit/sessions.c:132-139 | over every run, stops included, the number of live gettys held by sessions changes by exactly the failed respawns and the repairs |
| SessionModel.GettysExactly | sysinit/run_rc.c:102-107 | over every run, every live getty belongs to exactly one session and every session has one, throughout, if and only if no respawn after an exit fails and none after a stop succeeds |
| SessionModel.SessionsKeptInPlace | sysinit/sessions.c:113-143 | no run of events before shutdown adds, drops, reorders or otherwise changes a session but for its pid |
| SessionModel.StoppedGettyIsOrphaned | sysinit/run_rc.c:103-107 | a getty that stops stays alive, and no session owns it afterwards if and only if the fork of its replacement succeeds |
| SessionModel.DrainRun | sysinit/shutdown.c:64-69 | while draining nothing forks, each exit shrinks the children by one, the eventual survivors are fixed, and table and freed descriptors together are the original table |
| SessionModel.DrainEnds | sysinit/shutdown.c:64-69 | when no child is left the table is exactly the survivors and every other descriptor was freed once |
| SessionModel.PidsAre | sysinit/run_rc.c:105-107 | the reports to the table are one for each child event, with its pid, in order |
| SessionModel.SurvivorsAreNotLive | sysinit/sessions.c:127-129 | with distinct pids the survivors are the sessions whose process was not a live child, in order |
| SessionModel.OneToOneAllFreed | sysinit/sessions.c:127-129 | a table in one-to-one correspondence with live gettys drains to empty |
| SessionModel.SurvivorsCount | sysinit/sessions.c:127-129 | a drain frees one session for each live getty the table holds, for every table |
| SessionModel.LeftAfterRun | sysinit/sessions.c:113-143 | after any run from a one-to-one table, the drain leaves exactly as many sessions as losses less repairs |
| StartModel.BuiltExactly | sysinit/sessions.c:60-63 | exactly the ttys that are on, fully named, with a word in their columns and no failing allocation get a session: in order, idle, under their original position, on device /dev/ plus the name, with the words of getty and name |
| StartModel.PlainTtyAccepted | sysinit/sessions.c:266-304 | with memory, an enabled tty with a plain name is accepted and its name is the last argument |
| StartModel.StartExactly | sysinit/sessions.c:74-93 | sessions are tried in order, each at most once, up to the first that does not start, which decides how the loop ends |
| StartModel.StartEndings | sysinit/sessions.c:74-93 | all started if and only if every session is idle and every fork succeeds; never ending if and only if a session with a process is reached |
| StartModel.StartedOneToOne | sysinit/sessions.c:74-93 | a successful start with distinct live pids gives the one-to-one correspondence |
| StartModel.StartedDrain | sysinit/shutdown.c:52-69 | when all children of a partly started table exit at shutdown, exactly the sessions from the first failing fork on are left |
| StartModel.FreshTableEnds | sysinit/sessions.c:60-95 | on a freshly built list the loop ends, with all started exactly when every fork succeeds |
| Sessions.SessionTable.AddTail | sysinit/sessions.c:301 | a new descriptor is linked last |
| Sessions.SessionTable.FreeSession | sysinit/sessions.c:310-322 | the descriptor leaves the list and the others keep their order; no effect on the list for one not linked |
| Sessions.SessionTable.FindSession | sysinit/sessions.c:245-260 | the first session with the pid, null exactly when there is none |
| Sessions.SessionTable.CollectProcess | sysinit/sessions.c:113-143 | the heap list becomes exactly the table the run model gives, and one descriptor is freed exactly for a session marked for shutdown |
| Sessions.SessionTable.AllocSession | sysinit/sessions.c:266-304 | null exactly when the tty is off, a column is missing, an allocation fails or no word is left, and then the list stays as it was; otherwise the linked session has the index, the device /dev/ plus the name, and the words of both columns |
| Sessions.SessionTable.StartSessions | sysinit/sessions.c:50-96 | the table built and started as the model says, and the next state, or none when the loop never ends |
| Sessions.SessionTable.MarkShutdown | sysinit/shutdown.c:52-57 | every session, and nothing else, is marked |
| Reaper.TakenUntilNoChildren | sysinit/shutdown.c:64-69 | with a clean errno the loop takes the answers up to the first report of no children |
| Reaper.ReaperEnds | sysinit/shutdown.c:64-69 | the loop is over once there were more answers than children and interruptions |
| Reaper.ReaperDrains | sysinit/shutdown.c:52-71 | when it ends no child is left, the table is exactly the survivors, and the rest was freed once each; table and freed descriptors are those of StateReaper |
| Reaper.LeftByReaper | sysinit/shutdown.c:52-69 | through any run before shutdown and then the reaper: the sessions left in the table number exactly the failed respawns less the repairs |
| Reaper.DrainedExactly | sysinit/shutdown.c:64-69 | for every initial errno: all children are reaped if and only if it was not the case that errno was ECHILD, the first answer an exit, and more than one child alive |
| Reaper.StaleErrnoLeavesChildren | sysinit/shutdown.c:64-69 | a concrete run in which a stale ECHILD leaves a child |
| Reaper.StateReaper | sysinit/shutdown.c:45-77 | marks, sends SIGHUP only, feeds every child event in order to the heap table, which ends up with the table and the freed descriptors the run model gives, and ends when the loop does |
| RunRc.FirstDecides | sysinit/run_rc.c:102-132 | the first exit of the script or failure of waitpid decides, with one continue for each stop before it |
| RunRc.SucceedsExactly | sysinit/run_rc.c:102-132 | 0 if and only if the script's first event that is no stop is an exit with status 0 and waitpid had not failed before |
| RunRc.DoRunRc | sysinit/run_rc.c:55-134 | result, continues and answers used are those of the wait; every child reported goes to the table once and in order, with the table and freed descriptors the run model gives; after a failed fork the children ready before the first other answer are reaped unseen and the list is untouched |
| RunRc.StateRunRcStartup | sysinit/run_rc.c:27-38 | sessions are started next exactly when the script succeeds; the session list is what the answers taken by the wait make of it, untouched after a failed fork |
| RunRc.StateRunRcShutdown | sysinit/run_rc.c:44-49 | s-shutdown is next whatever the script's result; the session list is what the answers taken by the wait make of it, untouched after a failed fork |
| MessageLoop.LastHowIsLast | sysinit/message_loop.c:71-73 | in a batch with requests the last one fixes the way to shut down |
| MessageLoop.FirstShutdownAsks | sysinit/message_loop.c:57-67 | the batch the loop ends on has a request and none before it has |
| MessageLoop.Server.Drain | sysinit/message_loop.c:64-86 | message k of a batch gets the k-th reply, with its id, and 0 exactly if it is a SENDIO of the sysinit subclass; exactly such a message sets shutdown, and the last one fixes the way, also after an earlier one |
| MessageLoop.Server.StateMessageLoop | sysinit/message_loop.c:45-91 | all messages received on the port are answered once and in order; it returns exactly after the first wake-up on the port that brings a SENDIO of the sysinit subclass, with that batch drained and its last request in force |
| Lifecycle.RankIncreases | sysinit/main.c:68-116 | every transition, wired or of the rc handlers, goes up in rank |
| Lifecycle.VisitedOnce | sysinit/main.c:68-116 | no state is visited twice, a run has at most nine states, and shutdown comes last |
| Lifecycle.MessageLoopNeighbours | sysinit/main.c:74-98 | the message loop is entered only as the fourth state, and stop-sessions, rc-shutdown and s-shutdown follow it in this order |
| Sysinit.ShutdownIsLoaded | sysinit/run_s.c:45-77 | whenever s-shutdown is entered both scripts are loaded, so it cannot fail |
| Sysinit.RunsAlongRoute | sysinit/main.c:66-116 | at every moment the states entered are the first ones of one route, fixed by the scripts being loaded and the gettys starting |
| Sysinit.RunsToShutdown | sysinit/main.c:66-116 | a run stands at shutdown if and only if it went the whole route (failure without the scripts, the message loop exactly when every getty was started), no script exits, a shutdown request comes if the message loop is on the route, and the children go |
| Sysinit.HowOfRun | sysinit/shutdown.c:93-97 | shutdown_os is called at most once, exactly when nothing keeps the run from shutdown, with the value of the last request in the first wake-up that brings one if the message loop is entered, otherwise the initial one |
| Sysinit.RequestsOfRun | sysinit/run_s.c:57-71 | a run that shuts down with scripts loaded made exactly the requests of both scripts |
| Sysinit.RunIs | sysinit/main.c:66-116 | wherever a run of the state machine ends (a script exits, no request comes, children do not go, or shutdown), its last state, requests, table, replies and calls of shutdown_os are those read straight off its inputs |
| Sysinit.SessionsLeft | sysinit/shutdown.c:45-71 | the final table of a run whose reaper saw all children exit: exactly the sessions from the first failing fork on, marked; empty if all gettys were started |
| Sysinit.Init.HandleRunSStartup | sysinit/run_s.c:45-63 | in a run, the startup script is the one interpreted and the shutdown script the one kept; without both nothing is requested |
| Sysinit.Init.HandleStartSessions | sysinit/sessions.c:60-95 | from an empty list, the message loop is entered exactly when some session was built and every fork succeeded |
| Sysinit.Init.HandleMessageLoop | sysinit/message_loop.c:45-91 | in a run, every message up to the batch with the first shutdown request is answered, and the loop is left exactly if there is one; while it waits, scripts, sessions and the way to shut down are as before |
| Sysinit.Init.HandleReaper | sysinit/shutdown.c:45-77 | in a run, the table is marked and becomes what the answers the wait loop takes make of it, and shutdown is next exactly if the loop ends |
| Sysinit.Init.StateRunSStartup | sysinit/run_s.c:45-63 | failure exactly when a script is not loaded; otherwise the startup script is run |
| Sysinit.Init.StateRunSShutdown | sysinit/run_s.c:69-77 | runs the shutdown script; failure only without one |
| Sysinit.Init.RunOn | sysinit/main.c:68-116 | from any state after the first, with any sessions in the table, the loop ends at shutdown or at a state the run cannot get past, with scripts, requests, table and replies as the states entered make them |
| Sysinit.Init.Boot | sysinit/main.c:60-117 | shutdown_os is called once, with the way to shut down the run fixed, exactly when the run gets to the shutdown state; it does not get past a script that exits |
| Sysinit.PowerOn | sysinit/main.c:60-117 | a new process ends in exactly the state, with exactly the requests, session table, replies and calls of shutdown_os that its inputs fix: nothing requested without both scripts, the startup script first, the shutdown script after it in a run that shuts down, and the initial way to shut down if the message loop is not entered |

## Left out

- Lines of more than 255 characters: writing past the line buffer has no defined meaning, so scripts with such a line on a reached path are excluded by `Fits`.
- RunS.Interpreter.CmdStart: fork and the child's execve are one request; that a failed fork executes nothing is not recorded, as the dispatcher ignores the result.
- RunS.Interpreter.CmdMknod: `atoi`, the mode bits and the other stat fields are not modelled; the mode is kept as its text.
- RunS.Interpreter.CmdWaitFor: polling until the mount appears is one request, so a wait that never ends is not modelled.
- RunS.Interpreter.ProcessBootstrapScript: the return codes of the commands are arbitrary and ignored, as in the source; logging of unknown commands is not recorded.
- Reading script files (`load_bootstrap_file`): the result is a missing buffer or a NUL-terminated one.
- Sessions.SessionTable.AllocSession: a session keeps its argument vector as a list of strings, read from the array `ConstructArgv` builds; the two heap blocks themselves, and `se_started`, are not fields of the model.
- Sessions.SessionTable.FreeSession: the list macros are not part of the repository; they are taken as add-tail and unlink, and unlinking a descriptor that was never linked (`sysinit/sessions.c:297`) as having no effect.
- The flag word of a session is two booleans; `_PATH_DEV` and the initial `SHUTDOWN_HALT` come from headers that are not part of this model (`/dev/`, and a parameter of the run).
- Orphans adopted by process 1: the set of live children stands for all processes that are or become its children; it grows only by forks of sessions.
- Reaper.StateReaper: SIGTERM and SIGKILL are never sent because the source returns in the first turn of its loop; the warning behind the loop is unreachable.
- MessageLoop.Server.StateMessageLoop: kqueue registration, message buffers and a failing readmsg are not modelled; a wake-up is the batch that getmsg delivers.
- Sysinit.Init.Boot: the run is the one main takes today, with the rc handlers not called; their own edges are in `Lifecycle.Edge` and their handlers in `RunRc`.
- Child-side code after fork, terminal setup, signal masks, time stamps, logging, `reap_processes` (never called) and `s_cmd_setenv` (never called).
- The other servers (automount, nettcpip, syslog, sysinfo) are skeleton message loops with only easy properties.
