# imapsync job runner — a Dafny model of its sequential logic

The program migrates a list of mailboxes from one IMAP host to another by
running the external `./imapsync` tool once per mailbox on a fixed pool of
workers. This project models the sequential parts of `main.go`:

- the job-list reader `readFile`: the file text is split on `"\n"`, each
  line on `";"`; a line with fewer than two fields is skipped; fields 0 and 1
  are the source login and password, and fields 2 and 3, when present,
  override the destination login and password, which otherwise repeat the
  source pair (`MailList.ReadFile`, specified by `MailList.Parse`);
- Go's `strings.Split` for a one-character separator (`GoStrings.Split`),
  characterised by its pieces being separator-free and joining back to the
  input, and by being the only non-empty such list of pieces;
- the argument vector each worker passes to `./imapsync`
  (`Invocation.SyncArgs`), together with an option reader that gives each
  value option the argument after it (`Invocation.ReadOptions`); the round
  trip shows every host, credential and the error limit sits under its own
  option, whatever the strings contain;
- the choice of the job-list file in `main` (`JobPath.JobListPath`).

The two records of the program, the configuration and the job, are the
datatypes `Records.Config` and `Records.Mail`. Go strings are byte strings;
they are modelled as `seq<char>`, which splits identically because both
separators are single ASCII characters. The outcome of `os.ReadFile` is a
parameter of `ReadFile` (`Success(text)` or `Failure(error)`).

The job-list format is sometimes described as `login1;password1[;login2;password2]`
with the destination defaulting to the source whenever fields 3 and 4 are
missing. The code (main.go:82-87) treats the two fields separately: a line
of three fields takes its third field as the destination login and keeps the
source password as the destination password. The model follows the code
(`MailList.ThreeFields`).

Line endings are taken as they are: a `"\r"` before the `"\n"` stays in the
last field of the line, and the empty piece after a final `"\n"` is a line
without `";"`, so it is skipped.

## Model

| member | source | states |
|---|---|---|
| GoStrings.Split | main.go:72 | a separator occurring n times splits the string into n + 1 pieces, so `""` gives one empty piece |
| GoStrings.SplitSingle | main.go:72-75 | the split is the input alone, and has one piece, exactly when the separator does not occur |
| GoStrings.SplitJoin | main.go:69 | joining the pieces with the separator gives back the input text |
| GoStrings.SplitPiecesFree | main.go:72 | no piece contains the separator |
| GoStrings.SplitUnique | main.go:69 | any non-empty list of separator-free pieces is what splitting their join yields, so Split is the unique such decomposition |
| GoStrings.SplitPrefix | main.go:72 | a separator-free prefix followed by the separator becomes the first piece, the rest is split on its own |
| MailList.ReadFile | main.go:64-91 | a failed read returns the error and no jobs; a successful read always succeeds with the jobs `Parse` gives for the text, built by the loop over the lines |
| MailList.Parse | main.go:69-88 | the k-th job of the file text is the record of the k-th `"\n"`-separated line holding a `;`, so there is exactly one job per such line, in line order, and never more jobs than the text has lines |
| MailList.ParseLines | main.go:70-88 | the job list never has more entries than there are lines |
| MailList.RecordLines | main.go:71-75 | the positions of the lines that yield a job are in range, strictly increasing, and are exactly the lines holding a `;` |
| MailList.ParseLinesOrder | main.go:70-88 | the i-th job is the record of the i-th line holding a `;`, so jobs keep the relative order of their lines and their number equals the number of such lines |
| MailList.LineToMail | main.go:72-87 | a line yields a job exactly when it holds at least one `;`, so empty and single-field lines are skipped; login1 is the text before the first `;` and pass1 the text from there to the next `;` or the end of the line; no credential of the job contains a `;`; with `TwoFields`, `ThreeFields` and `FourOrMoreFields` this fixes the job of every line |
| MailList.TwoFields | main.go:76-81 | `a;b` gives login1 = login2 = a and pass1 = pass2 = b |
| MailList.ThreeFields | main.go:76-84 | `a;b;c` gives login1 = a, pass1 = b, login2 = c and pass2 = b |
| MailList.FourOrMoreFields | main.go:76-87 | `a;b;c;d`, alone or followed by further `;`-fields, gives login1 = a, pass1 = b, login2 = c, pass2 = d and ignores the rest |
| Invocation.SyncArgs | main.go:111-114 | the argument list always has 15 entries |
| Invocation.SyncArgsRoundTrip | main.go:111-114 | reading the argument list back gives `--host1` the configured source, `--user1`/`--password1` the source credentials, `--host2` the destination, `--user2`/`--password2` the destination credentials, `--errorsmax` the configured limit, and sets the `--nolog` switch, for every configuration and job |
| JobPath.JobListPath | main.go:40-43 | with more than one process argument the job list is the first argument after the program name, otherwise the configured mails_file |
| JobPath.ExtraArgsIgnored | main.go:41-42 | arguments beyond the first after the program name do not change the path |
| JobPath.ArgumentOverridesConfig | main.go:40-43 | when a path is given on the command line the configured mails_file plays no part |

## Left out

- `runSync` (main.go:93-136): the worker pool of goroutines, the unbuffered job channel, the sequence-number feeder goroutine, `select` on context cancellation and the `sync.WaitGroup`. This is concurrency, which sequential Dafny does not model; only the argument vector a worker builds is modelled.
- Running `./imapsync` with `cmd.Run()` (main.go:118) and classifying its exit status: a foreign subprocess; the model stops at the command line it receives (`Invocation.ImapsyncPath` and `SyncArgs`).
- Wall-clock timing and the log lines (main.go:48-51, 116-123): clocks, floating-point minutes and output formatting.
- `readConfig` (main.go:54-62): file I/O and YAML decoding by an external library; the model takes a `Config` value as given.
- `os.ReadFile` (main.go:65): I/O; its outcome is the parameter of `MailList.ReadFile`.
- `log.Fatal` exits in `main` (main.go:38, 46): process termination on a failed configuration or job-list read; `ReadFile` returns the error that would trigger it.
- GoStrings.Split: modelled for one-character separators only, the only kind the program passes; Go's multi-character and empty separators are not modelled.
- The capacity hint of `make(mails, 0, len(lines))` (main.go:70) affects only allocation, not the resulting list.
