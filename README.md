# FMS driver: option filter and pass loop

This project models the two self-contained parts of `src/fms/ad_fms.c`, the
driver of a Sanchis-style multi-way Fiduccia–Mattheyses partitioner.

- `command_line.dfy` (module `CommandLine`) models `processArgs`, which
  filters the leading `-h`/`-H`/`-v`/`-o <file>` switches out of `argv`. It
  sets the globals `verbose`, `outfile` and `prog`, and moves the positional
  arguments down to `argv[1..]` in place. The globals are the fields of a
  `Settings` object. `argv` is an `array<string>` whose length is `argc`. An
  argument is a C string without its NUL; character `k` is read through
  `CharAt`, which yields `'\0'` just past the end. `usage`, which always exits
  the process, becomes the result `Exit(reason)`. `ProcessArgs` runs the same
  two loops as the source and is proved against `ScanSwitches`, the switch loop
  written as a recursive function. The lemmas characterise that function.
- `pass_driver.dfy` (module `PassDriver`) models the nested `do … while`
  loops of `main` that drive the passes. They count `nlocked`, `msize`,
  `no_iter` and the running `cutsize`. The engine the loop calls
  (`select_cell`, `find_move_set`, `move_cells`) is an `Oracles` value of three
  unconstrained functions, so every property holds whatever the engine
  answers. `RunPasses` is proved against `Trace`, the sequence of passes
  written as a recursive function, and the lemmas state what the loop
  guarantees about that sequence.

Where the code differs from the usual description of the Sanchis/FM pass, the model follows the code:

- The selection loop is a `do … while (nlocked < nocells)`, so it runs
  `max(1, nocells)` times, not exactly `nocells` times.
- Nothing in `ad_fms.c` guarantees that each cell is locked exactly once.
  That depends on `select_cell`, which is not part of this model.
- With `argc == 0`, `processArgs` sets `prog` to `argv[0]`, which is NULL,
  and reports a new count of 1. So "the new count never exceeds the old one"
  holds only for `argc >= 1` (`EmptyArgvGivesCountOne`, `CompactionShape`).

## Model

| member | source | states |
|---|---|---|
| `CommandLine.Settings.constructor` | src/fms/ad_fms.c:34-36 | the globals start with no program name, no output file and `verbose == 0` |
| `CommandLine.Settings.ProcessArgs` | src/fms/ad_fms.c:53-98 | `prog` is the original `argv[0]` (none when `argc == 0`). If the scan calls `usage`, the result is `Exit` with that reason and `argv` is untouched. Otherwise the same array comes back with count `1 + (argc - first positional index)`, `verbose`/`outfile` as the scan left them, and `argv` compacted: `argv[0]` kept, positional arguments next in order, the tail unchanged |
| `CommandLine.ScanSwitches` | src/fms/ad_fms.c:69-87 | when the scan stops, the stopping index is at least the start index, and at most `argc` when the start is within the arguments |
| `CommandLine.ScanStopsAtPositional` | src/fms/ad_fms.c:69-94 | the scan stops at `argc` or at the first examined argument whose first character is not `'-'`. The stop is the start index or the index just past an examined, accepted switch, so it is never the file name of a `-o`. Every earlier index is an examined switch or the file name of a `-o` |
| `CommandLine.ScanUsageIff` | src/fms/ad_fms.c:71-85 | `usage` is called exactly when the scan examines a switch other than `-v`, or other than `-o` with a following argument. The reason matches that switch: `-h`/`-H` help, `-o` as the last argument missing file name, anything else (a bare `-` included) unknown switch |
| `CommandLine.ScanVerbose` | src/fms/ad_fms.c:75-77 | on success `verbose` is 1 exactly when an examined switch has second character `v`, and keeps its old value otherwise |
| `CommandLine.ScanOutfile` | src/fms/ad_fms.c:78-82 | on success `outfile` is the argument after the last examined `-o`, even when that argument starts with `'-'`. Without a `-o` it keeps its old value |
| `CommandLine.SwitchReadsTwoChars` | src/fms/ad_fms.c:70-71 | replacing a switch by another with the same first two characters (`-vfoo` for `-v`) gives the same outcome. For an unknown switch, only the quoted text changes |
| `CommandLine.CompactionShape` | src/fms/ad_fms.c:89-96 | with `argc >= 1`, on success the new count is `1 + argc - next` and lies in `[1, argc]`. The array keeps its length and `argv[0]`, and `argv[1..count]` is exactly the arguments from the first positional one on |
| `CommandLine.EmptyArgvGivesCountOne` | src/fms/ad_fms.c:64-96 | with no arguments the scan stops at index 1 and the reported count is 1 |
| `CommandLine.SwitchExamples` | src/fms/ad_fms.c:69-87 | concrete outcomes: `-vfoo` acts as `-v`, `-o -v` takes `-v` as the file name, and `-o` last, `-h`, `-H`, `-x` and `-` each call `usage`. An empty argument or a plain name ends the switches |
| `PassDriver.RunPasses` | src/fms/ad_fms.c:232-289 | the loop's final `no_iter` and `cutsize` are the length and last cut of `Trace`. At least one pass runs, and at most `NO_ITERATIONS` when that is at least 1 |
| `PassDriver.CountFeasibleBound` | src/fms/ad_fms.c:245-267 | `msize` never exceeds the number of selections. It equals that number exactly when every selection was feasible, and is 0 exactly when none was |
| `PassDriver.TraceLength` | src/fms/ad_fms.c:233-289 | the outer loop performs at least one pass, and at most `NO_ITERATIONS - pass` from pass number `pass` on |
| `PassDriver.TracePasses` | src/fms/ad_fms.c:245-289 | for each pass: `no_iter` numbers it, `nlocked` is `max(1, nocells)`, and `msize` is the count of feasible selections and at most `nlocked`. `cutsize` changes only when `gain_sum > 0`, and then by exactly what `move_cells` returned. It carries over from pass to pass. Every pass but the last satisfies `gain_sum > 0 && cutsize > 0 && no_iter < NO_ITERATIONS`, and the last does not |
| `PassDriver.NoGainIsFinal` | src/fms/ad_fms.c:277-289 | a pass whose best prefix does not gain is the last pass and leaves `cutsize` unchanged |
| `PassDriver.FinalCut` | src/fms/ad_fms.c:277-281 | the final `cutsize` is the initial one minus the sum of what `move_cells` returned over the passes that gained |
| `PassDriver.CutNonIncreasing` | src/fms/ad_fms.c:277-281 | if `move_cells` returns no negative reduction in the passes that commit, `cutsize` never increases from pass to pass and ends at most at its initial value |

## Left out

- The partitioning engine is not part of this model: `compute_gains`,
  `create_buckets`, `select_cell`, `delete_partb_nodes_of_cell`, `move_cell`,
  `update_gains`, `find_move_set`, `move_cells`, `create_partition`,
  `copy_partition`, `init_buckets`, `free_nodes`, `find_cut_size`. Their
  bodies are not in `ad_fms.c`. Only the answers the loop consumes appear, as
  unconstrained oracles: `move_possible`, `gain_sum` and `cut_gain`.
- The lock flags, the selected-cell scratch record and the move records
  (`mcells`) are not modelled. Only the counters that index them are.
  `glob_inx`, which only `move_cells` uses, is left out too.
- `read_graph_size`, `read_graph` and `randomize` are left out (file input and
  random seeding). So are the `atoi`/`sprintf` conversions of `argv[2]` and
  `argv[3]` and the `argc < 3` check in `main`, which lies outside the
  modelled lines.
- All printing is left out: `print_vertex_partition`, `print_graph`,
  `print_parts_info`, the output file written through `fopen`/`fclose`, the
  `DEBUG` traces and the text that `usage` and `die` write to stderr. Only
  the fact that `usage` ends the process is modelled.
- `calloc`/`free`/`assert` bookkeeping and array sizing are left out
  (allocation plumbing). The `oldargv` copy is modelled as a fresh array.
- `NO_ITERATIONS` is defined in a header that is not part of this model, so it
  is the parameter `maxIterations`.
- `CommandLine.Settings.ProcessArgs`: on the `usage` path the contract does not
  state `verbose` and `outfile`. A switch processed before the bad one may
  already have set them, but the process exits right away.
- `PassDriver.RunPasses`: `cutsize`, `no_iter` and the other counters are
  unbounded integers. A 32-bit overflow of `cutsize -= cut_gain` for extreme
  engine answers is not modelled.
