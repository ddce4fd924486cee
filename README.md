# Token ring game: directory and token bookkeeping

`desafio1.c` runs a game between `num_procesos` processes arranged in a ring.
Process 0 gives every other process the PID table, then sends an integer
token round the ring. Each holder subtracts `rand() % max_random` from the
token. A process whose token goes negative drops out: it tells the others
and, if more than one process is left, announces the highest active index as
the new leader. That leader restarts the token with the initial value. The
last process still active wins.

This project models the bookkeeping one process does, and the pure logic
around it. Signal handlers are modelled as atomic transitions on that state.

- `Config`: the option checks for `-p`, `-t` and `-M`, applied to the integers
  `atoi` produced, as they arrive from `getopt`.
- `PidCodec`: packing a table entry into one signal payload (index in the
  upper 16 bits, PID in the lower 16) and unpacking it in the handler. C
  `int` and `pid_t` values are 32-bit two's-complement patterns (`bv32`).
  The handler's right shift copies the sign bit, as gcc and clang do (C leaves
  `>>` of a negative `int` implementation-defined).
- `Ring`: pure functions of a snapshot of the `procesos[i].activo` flags:
  - the clockwise scan for the next active entry;
  - the highest active index;
  - the live count;
  - the broadcast recipients;
  - the main loop's continuation test and the winner test.
- `Game`: class `Process`, which holds one process's copy of the table, the
  live count `procesos_activos`, the flags the handlers raise, and the loops
  and steps of `main` that read and write them. Most methods are specified by
  the `Ring` functions; `ReceivePid` by `PidCodec`.

Behaviour of the code worth knowing:

- With a single process, process 0 still sends the opening token, to itself
  (`Game.LoneOpenerSendsToItself`). It does not win without a message.
- `manejador_eliminacion` is not idempotent. A repeated notice for the same
  index lowers the live count again and breaks the count-equals-flags
  invariant (`Game.Process.MarkEliminated`, `Game.DuplicateNoticeTwoWinners`).
- The leader is the highest active index (`proceso_con_mayor_indice`). There
  is no ring election.
- An eliminated process still handles a token that a neighbour with an
  out-of-date table sends it: the token step (desafio1.c:327-372) never reads
  its own `activo` flag. A non-negative result is forwarded. A negative one
  lowers the live count again and repeats the elimination broadcast, leaving
  the count one below the flags (`Game.Process.TokenStep` states both).
- No winner is broadcast, and an eliminated process never leaves the main
  loop: once its count reaches 1 the second disjunct of desafio1.c:322 (one
  live process, and not itself) keeps it waiting in `pause()` for good
  (`Ring.SoleSurvivorWins`). So every loser waits forever, and an eliminated
  process 0 never reaches the `wait` calls at desafio1.c:408-411.

## Model

| member | source | states |
|---|---|---|
| Config.ValidConfig | desafio1.c:194-208 | a configuration the program accepts: 1 to 100 processes, a positive initial token and a positive random bound |
| Config.Reject | desafio1.c:192-216 | `-p` fails exactly when outside 1..100, `-t` and `-M` exactly when not positive, each with its own error; an unknown option fails with the usage error |
| Config.LastIndex | desafio1.c:190-217 | the position of the last option setting a flag: that option sets it and no later one does, or -1 when none does |
| Config.LastOccurrence | desafio1.c:190-217 | a flag is mentioned exactly when it has a last occurrence; its final value is that occurrence's argument, or the initial 0 |
| Config.LastAppend | desafio1.c:190-217 | one more option changes a flag's final value exactly when it sets that flag, to its argument |
| Config.ParseOptions | desafio1.c:190-223 | success exactly when every option passes its check and all three are given; the result is valid and holds the last value of each; otherwise the error of the first failing option, or the usage error |
| Config.AcceptedLast | desafio1.c:219-223 | once all options pass, a final value is 0 exactly when its option is missing, and otherwise passes its check |
| Config.ValidConfigAccepted | desafio1.c:192-212 | a configuration is valid exactly when each of its three values passes its option's check |
| PidCodec.Signed | desafio1.c:67 | the signed `int` value of a 32-bit pattern lies in the `int` range and is negative exactly when the sign bit is set |
| PidCodec.Pack | desafio1.c:290 | packing an index below 0x8000 never sets the sign bit |
| PidCodec.IndexField | desafio1.c:67 | the arithmetic shift keeps the sign bit; with it clear the field is below 0x8000, with it set the upper half is all ones |
| PidCodec.IndexOf | desafio1.c:67 | the unpacked index lies in [-0x8000, 0x8000) and is negative exactly when the payload's sign bit is set |
| PidCodec.PidOf | desafio1.c:68 | the unpacked PID is below 65536 |
| PidCodec.FieldsOfPack | desafio1.c:290 | a packed payload has the sign bit clear, the index in its upper 16 bits and the PID's low 16 bits in its lower 16 |
| PidCodec.UnpackPack | desafio1.c:67-68 | unpacking a packed entry gives back its index and the PID modulo 65536 |
| PidCodec.PackUnpack | desafio1.c:67-70 | every payload whose index the handler reads as non-negative is the packing of the index and PID it unpacks to |
| PidCodec.PidExact | desafio1.c:290 | the PID comes back unchanged exactly when, read as a signed int, it lies in [0, 65536) |
| PidCodec.PackInjective | desafio1.c:290 | two entries pack to the same payload exactly when their indices are equal and their PIDs agree in the low 16 bits |
| Ring.Next | desafio1.c:157 | the position after `k` is still on the ring |
| Ring.NextIsModulo | desafio1.c:160 | the wrap to the next position is `(k + 1) % num_procesos` |
| Ring.Walk | desafio1.c:159-161 | the positions a scan reads: its t-th probe is t + 1 steps clockwise from the start |
| Ring.WalkDistinct | desafio1.c:159-161 | a scan of at most one round never reads an entry twice |
| Ring.Scan | desafio1.c:159-161 | the scan stops on an active entry or back at the start, and every entry it passes on the way is inactive |
| Ring.Successor | desafio1.c:156-164 | the result is in range; it is the process itself exactly when no other entry is active; otherwise it is active, and every entry clockwise before it is inactive |
| Ring.CountActive | desafio1.c:35 | the live count of a snapshot is at most its size |
| Ring.CountClear | desafio1.c:53-54 | clearing a flag lowers the count by one exactly when that entry was active |
| Ring.CountFull | desafio1.c:230-236 | the count equals the table size exactly when every entry is active |
| Ring.CountZero | desafio1.c:322 | the count is zero exactly when no entry is active |
| Ring.CountTwo | desafio1.c:322 | two active entries make a count of at least two |
| Ring.Highest | desafio1.c:167-177 | -1 exactly when no entry is active; otherwise an active index at least every active index |
| Ring.Recipients | desafio1.c:128-153 | an index is signalled exactly when it is active and not the sender; indices ascend and are in range |
| Ring.RecipientsCount | desafio1.c:132-133 | one signal per active entry, less one when the sender is itself active |
| Ring.IsWinner | desafio1.c:402 | the winner test: this process's own entry is active and the live count is one |
| Ring.KeepRunning | desafio1.c:322 | with a live count of at least one, the loop stops exactly when the winner test holds |
| Ring.SoleSurvivorWins | desafio1.c:402 | with a count that matches the flags and equals one, exactly one process passes the winner test and every other stays in its loop |
| Ring.NoWinnerWhileSeveralLive | desafio1.c:402 | while the count matches the flags and another entry is active, no process passes the winner test |
| Game.Decrement | desafio1.c:180-182 | the decrement lies in [0, max_random), and every value below the bound occurs |
| Game.NoticeRestarts | desafio1.c:376-398 | the restarts as written: the leader branch's restart, preceded by the same restart again when an elimination notice is pending; at most two |
| Game.LeaderRestart | desafio1.c:389-398 | at most one restart, exactly when this process is the announced leader and another entry is active, sent to its active successor |
| Game.DoubleRestart | desafio1.c:376-398 | with both notices pending and this process the leader, the code restarts the token twice |
| Game.DoubleRestartExample | desafio1.c:376-398 | three processes, process 1 gone, process 2 the leader with both notices pending: process 0 receives two restarted tokens |
| Game.LoneOpenerSendsToItself | desafio1.c:314-319 | alone in the ring, process 0 sends the opening token to itself |
| Game.DuplicateNoticeTwoWinners | desafio1.c:51-55 | two notices for the same index leave the count one below the flags, and two of three processes pass the winner test |
| Game.Process.constructor | desafio1.c:229-236 | every entry active with PID -1, the live count at num_procesos and in step with the flags, no notice pending |
| Game.Process.NextActive | desafio1.c:156-164 | returns the successor of the scan; the entries it reads are the walk from this process up to the result, all distinct, ending at the result |
| Game.Process.MaxActive | desafio1.c:167-177 | returns the highest active index of the table |
| Game.Process.ReceiveToken | desafio1.c:44-47 | records the token value and raises the token flag |
| Game.Process.ReceiveLeader | desafio1.c:61-63 | records the announced leader index |
| Game.Process.MarkEliminated | desafio1.c:51-58 | clears exactly that entry, lowers the count by one and raises the notice; the count stays in step with the flags when the entry was active and falls one below otherwise |
| Game.Process.ReceivePid | desafio1.c:66-74 | stores the unpacked PID and counts it exactly when the unpacked index is in [0, num_procesos); otherwise nothing changes |
| Game.Process.OpeningMove | desafio1.c:314-319 | process 0, and only it, sends the opening token to its successor |
| Game.Process.TokenStep | desafio1.c:327-372 | the new token is the value less the decrement, in (value - max_random, value]; elimination exactly when it is negative, clearing only its own entry, lowering the count, notifying every other active entry and, with more than one left, announcing a leader other than itself; otherwise the token goes to the successor unless that is itself; the count stays in step with the flags |
| Game.Process.HandleNotices | desafio1.c:376-398 | clears both notices; the restarts are the elimination branch's plus the leader branch's, as written |
| Game.Process.HandleNoticesOnce | desafio1.c:376-398 | clears both notices and restarts the token at most once, for a pending announcement naming this process |

## Left out

- Process creation, `fork`, `wait` and `getpid` (desafio1.c:253-274, 407-412): operating-system process management.
- Signal set-up and transport: `sigaction`, `sigqueue`, `sigprocmask`, `sigsuspend` and `pause`. Each handler is one atomic transition of `Game.Process`, and a broadcast is the list of indices it signals. Races between handlers and the main loop, lost or merged signals, and ordering between processes are not modelled.
- The PID distribution loop at desafio1.c:285-297 and the wait for all PIDs at 299-301. Only the payload of one entry (`PidCodec.Pack`) and its reception (`Game.Process.ReceivePid`) are modelled.
- `usleep`, `sleep`, `printf` and `perror`: timing and logging.
- `srand` and `rand`. The value `rand()` returned is a parameter of `Game.Process.TokenStep` and `Game.Decrement`.
- `getopt` and `atoi`. An option arrives as a flag with the integer `atoi` produced, or as an unrecognized option.
- Game.Process.TokenStep: `int` overflow of `token_valor - decremento` is not modelled; tokens are unbounded integers.
- Game.Process.MarkEliminated: requires the index to lie in [0, num_procesos). The only sender passes its own index (desafio1.c:130, 345), so no index the program sends is excluded. The handler has no guard: an index in [num_procesos, 100) would clear an unused slot of the 100-entry table (desafio1.c:12, 30) and still lower the live count, and only an index outside [0, 100) is undefined behaviour in C. Neither case is modelled.
- The main loop itself (desafio1.c:321-399) is modelled as its parts: the loop test (`Ring.KeepRunning`), the token step and the notice handling. Their interleaving with signal arrival is not.

## Findings

| source | as written | input that shows it | evidently intended | confidence | as-written member | corrected member |
|---|---|---|---|---|---|---|
| desafio1.c:376-398 | when this process is the announced leader, a pending elimination notice and a pending leader announcement each restart the token, so two tokens enter the ring | three processes, process 1 eliminated, process 2 handles both notices in one wake-up: two tokens go to process 0 | one restart per leader announcement, so exactly one token circulates | medium, not executed | Game.Process.HandleNotices, Game.DoubleRestartExample | Game.Process.HandleNoticesOnce |
