# cat: accumulate-then-emit file concatenation

This project models the `cat` utility of `day1/cat.c` in Dafny and proves
what it does. The program takes file names on its command line and reads
each file byte by byte, in argument order, into one heap buffer. The buffer
starts with a capacity of 1024 bytes and doubles with `realloc` exactly when
it is full. If any file cannot be opened, the program stops at once with
status 1 and a message on standard error. Only after every file has been
read does it write the buffer to standard output and exit with status 0.

The model lives in one module, `Cat` (`cat.dfy`):

- **Environment.** The file system is a `map<string, seq<byte>>`. A name the
  map does not hold is one that `fopen` cannot open. One run's observable
  result is an `Outcome`: the exit status, the bytes on standard output, the
  messages on standard error, and the names passed to `fopen`, in order.
- **Specification.** `Behaviour(args, fs)` is the outcome `main` must
  produce for `argv == args`. `Contribution(bytes)` is what one file adds to
  the buffer.
- **Program.** `Run` is `main`. It keeps the source's `buffer` (an
  `array<schar>`), `allocMaxSize` and `currentSize`. Its `for` loop over the
  arguments calls `ReadFile`, which is the `fgetc` loop. `ReadFile` calls
  `Append` for the capacity check and the store, and `Append` calls
  `Realloc`. `Print` is the final output loop. `Run` is proved to produce
  exactly `Behaviour(args, fs)`.
- **Growth policy.** `CapacityFor(n)` is the buffer's capacity once it
  holds `n` bytes. It is proved to be the least value of the form
  1024·2^k that is at least `n`. The read loops keep
  `buffer.Length == allocMaxSize == CapacityFor(currentSize)` as an
  invariant.

`char` is taken to be signed, as on the x86 and x86-64 ABIs. Under that
assumption, `c = fgetc(fp)` turns byte 0xFF into -1, which compares equal
to `EOF`. So a file contributes only its bytes before its first 0xFF. The
model states this behaviour and proves it (`ToChar`,
`ContributionIsPrefixBeforeFF`). `printf("%c")` converts the stored char
back to the byte that was read (`ToByte`).

## Model

| member | source | states |
|---|---|---|
| `Cat.Run` | day1/cat.c:4-38 | The status, stdout, stderr and `fopen` order produced by `main` are exactly `Behaviour(args, fs)`. This covers the usage error, failure at the first unopenable file, and success. |
| `Cat.UsageWithoutFiles` | day1/cat.c:6-9 | With `argc < 2`: status 1, a single usage message naming `argv[0]`, nothing on stdout, and no file opened. |
| `Cat.FirstUnopenable` | day1/cat.c:14-19 | Returns the index of the first name that cannot be opened, or the number of names when all can. Every earlier name can be opened. |
| `Cat.FailsAtFirstUnopenable` | day1/cat.c:14-19 | If `argv[k]` is the first file that cannot be opened: status 1, one "Cannot open file" message naming it, empty stdout (bytes already buffered are never printed), and `fopen` tried on exactly `argv[1..k]`, so no later file is opened. |
| `Cat.SucceedsIffAllOpenable` | day1/cat.c:14-37 | Status is 0 if and only if at least one file is named and every named file can be opened. On success, stdout is the files' contributions concatenated in argument order, stderr is empty, and every file is opened once, in order. Otherwise status is 1, stdout is empty, and stderr holds exactly one message. |
| `Cat.WholeFilesWithoutFF` | day1/cat.c:14-35 | When no named file contains byte 0xFF, stdout is the full contents of the files, concatenated in argument order. |
| `Cat.FlattenCons` | day1/cat.c:14-30 | Output order follows argument order: the first part comes first, followed by the concatenation of the rest. |
| `Cat.ToChar` | day1/cat.c:22-23 | Converting the `fgetc` result to signed `char` maps EOF to EOF. It maps a byte to EOF if and only if the byte is 0xFF. Converting back with `ToByte` recovers the byte. |
| `Cat.ToByte` | day1/cat.c:34 | `%c` writes 0xFF exactly for the char -1, and writes a non-negative char unchanged. |
| `Cat.ContributionIsPrefixBeforeFF` | day1/cat.c:22-29 | A file's contribution is a prefix of its bytes with no 0xFF in it. It ends at the end of the file or just before the first 0xFF. It equals the whole file if and only if the file has no 0xFF. |
| `Cat.CapacityForIsLeast` | day1/cat.c:11-27 | The capacity after `n` bytes is 1024·2^k for some k, and it is at least `n`. It is 1024 when `n <= 1024`, below `2n` otherwise, and no larger than any 1024·2^j that holds `n`. |
| `Cat.CapacityStep` | day1/cat.c:24-27 | Storing one more byte doubles the capacity exactly when `currentSize == allocMaxSize`. Otherwise the capacity is unchanged. |
| `Cat.CapacityFitsInt` | day1/cat.c:25 | While at most 2^30 bytes are buffered, `allocMaxSize` stays at or below 2^30, so it fits the program's 32-bit `int`. |
| `Cat.Realloc` | day1/cat.c:26 | Returns a fresh block of the requested capacity. Its prefix equals the whole old block. |
| `Cat.Append` | day1/cat.c:24-28 | The capacity doubles if and only if the buffer was full, and otherwise stays the same. The bytes already held are kept. The new char is stored at the old size, which is in bounds, and the size grows by one. Capacity stays `CapacityFor(size)`. |
| `Cat.ReadFile` | day1/cat.c:21-29 | Appends exactly the file's `Contribution` to the buffer contents. Size never exceeds capacity, and capacity stays `CapacityFor(size)`. |
| `Cat.Print` | day1/cat.c:32-35 | Output length is the final `currentSize`, and output byte `i` is buffer char `i` written as `%c`. |

## Left out

- `day3/mmap.c` is not part of this model. Its persistent region depends on `open`, `ftruncate`, `mmap` with `MAP_FIXED`, and section/alignment attributes. All of that is kernel and linker behaviour, not program logic.
- The C stdio calls (`fopen`, `fgetc`, `printf`, `fprintf`) are abstracted. Files are a name-to-bytes map, stdout is a byte sequence, and stderr is a list of messages. File handles, stdio buffering and the interleaving of the two streams are not modelled.
- Read errors are not modelled. `fgetc` also returns `EOF` on an I/O error, and the model only knows end of file and byte 0xFF.
- `malloc` and `realloc` are assumed to always succeed, as the source never checks their results. The slots `realloc` adds past the old block are zero in the model and indeterminate in C, but they are never read.
- The missing `fclose` and `free` are not modelled. The leaks have no observable effect on the outcome.
- Run: `allocMaxSize` and `currentSize` are unbounded integers. The doubling on day1/cat.c:25 overflows a 32-bit `int` past 2^30 buffered bytes, which is undefined behaviour in C. `CapacityFitsInt` marks the range where the model and the C program agree.
- Targets where `char` is unsigned are not modelled. There, `c != EOF` is always true, so the read loop never ends.
- ProgramName: with `argc == 0`, `argv[0]` is NULL. The usage message then names "(null)", as glibc prints a NULL `%s`. C leaves this case undefined.
- Run: the `fgetc` loop, the capacity check with its store, and the output loop are separate methods (`ReadFile`, `Append`, `Print`) rather than being inlined in `main`. Each has a contract that states exactly what its part of `main` does.
