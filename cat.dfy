/** A model of the `cat` utility of day1/cat.c.

    The program reads every file named on its command line, byte by byte and
    in argument order, into one heap buffer that starts with room for 1024
    bytes and doubles whenever it is full; only once every file has been read
    does it write the buffer to standard output.  A file that cannot be
    opened ends the run at once with status 1 and nothing on standard output.

    The C library is abstracted: the file system is a map from names to
    contents (a name it does not hold cannot be opened), standard output is a
    byte sequence, standard error a list of messages.  `char` is taken to be
    signed, as on the x86 and x86-64 ABIs. */
module Cat {

  /** A byte as `fgetc` delivers it and as `printf("%c")` writes it. */
  type byte = x: int | 0 <= x < 256

  /** A signed `char`, the element type of the buffer. */
  type schar = x: int | -128 <= x < 128

  const EOF: int := -1

  /** The capacity `malloc` is first asked for. */
  const InitialCapacity: nat := 1024

  /** The file system as the program sees it: a name it maps opens and
      yields those bytes; any other name makes `fopen` return NULL. */
  type FileSystem = map<string, seq<byte>>

  /** Everything observable about one run: the exit status, the bytes
      written to standard output, the messages written to standard error,
      and the names handed to `fopen`, in the order they were tried. */
  datatype Outcome = Outcome(status: int, stdout: seq<byte>, stderr: seq<string>, tried: seq<string>)

  // ---------------------------------------------------------------------------
  // Character conversions and the C library calls the loop relies on

  /** `c = fgetc(fp)` with `char c`: the int result (a byte, or EOF) converted
      to signed char.  Byte 0xFF becomes -1, which is EOF. */
  function ToChar(v: int): (c: schar)
    requires v == EOF || 0 <= v < 256
    ensures v == EOF ==> c == EOF
    ensures 0 <= v < 256 ==> ToByte(c) == v
    ensures 0 <= v < 256 ==> (c == EOF <==> v == 0xFF)
  {
    if v >= 128 then v - 256 else v
  }

  /** `printf("%c", c)`: the char converted to unsigned char and written. */
  function ToByte(c: schar): (b: byte)
    ensures (b == 0xFF) <==> (c == EOF)
    ensures c >= 0 ==> b == c
  {
    if c < 0 then c + 256 else c
  }

  /** `fgetc` on a stream of `bytes` whose read position is `pos`. */
  function Fgetc(bytes: seq<byte>, pos: nat): int {
    if pos < |bytes| then bytes[pos] else EOF
  }

  function UsageMessage(prog: string): string {
    "Usage: " + prog + " FILE1 ... FILEN\n"
  }

  function CannotOpenMessage(name: string): string {
    "Cannot open file: " + name + "\n"
  }

  /** `argv[0]`; with `argc == 0` it is NULL, which glibc prints as "(null)". */
  function ProgramName(args: seq<string>): string {
    if |args| == 0 then "(null)" else args[0]
  }

  // ---------------------------------------------------------------------------
  // The specification of one run

  /** What one file adds to the buffer: its bytes up to the first one whose
      conversion to `char` compares equal to EOF. */
  function Contribution(bytes: seq<byte>): seq<byte> {
    if |bytes| == 0 || ToChar(bytes[0]) == EOF then []
    else [bytes[0]] + Contribution(bytes[1..])
  }

  /** Concatenation of a sequence of byte sequences, in order. */
  function Flatten(parts: seq<seq<byte>>): seq<byte> {
    if |parts| == 0 then [] else Flatten(parts[..|parts| - 1]) + parts[|parts| - 1]
  }

  predicate AllOpenable(names: seq<string>, fs: FileSystem) {
    forall i :: 0 <= i < |names| ==> names[i] in fs
  }

  /** The contribution of each named file, in argument order. */
  function Contributions(names: seq<string>, fs: FileSystem): (parts: seq<seq<byte>>)
    requires AllOpenable(names, fs)
    ensures |parts| == |names|
  {
    seq(|names|, i requires 0 <= i < |names| => Contribution(fs[names[i]]))
  }

  /** The index of the first name that cannot be opened, or |names| when
      every one can. */
  function FirstUnopenable(names: seq<string>, fs: FileSystem): (k: nat)
    ensures k <= |names|
    ensures forall j :: 0 <= j < k ==> names[j] in fs
    ensures k < |names| ==> names[k] !in fs
  {
    if |names| == 0 || names[0] !in fs then 0 else 1 + FirstUnopenable(names[1..], fs)
  }

  /** The outcome `main(argc, argv)` produces, where `args` is `argv`. */
  function Behaviour(args: seq<string>, fs: FileSystem): Outcome {
    if |args| < 2 then
      Outcome(1, [], [UsageMessage(ProgramName(args))], [])
    else
      var files := args[1..];
      var k := FirstUnopenable(files, fs);
      if k < |files| then
        Outcome(1, [], [CannotOpenMessage(files[k])], files[..k + 1])
      else
        Outcome(0, Flatten(Contributions(files, fs)), [], files)
  }

  // ---------------------------------------------------------------------------
  // The buffer's growth policy

  function Pow2(k: nat): (p: nat)
    ensures p >= 1
  {
    if k == 0 then 1 else 2 * Pow2(k - 1)
  }

  /** The smallest k with n <= 1024 * 2^k. */
  function CapacityExponent(n: nat): nat {
    if n <= InitialCapacity then 0 else 1 + CapacityExponent((n + 1) / 2)
  }

  /** The capacity of the buffer once it holds n bytes. */
  function CapacityFor(n: nat): nat {
    InitialCapacity * Pow2(CapacityExponent(n))
  }

  lemma {:induction false} Pow2Monotone(j: nat, k: nat)
    requires j <= k
    ensures Pow2(j) <= Pow2(k)
  {
    if j < k {
      Pow2Monotone(j, k - 1);
    }
  }

  lemma {:induction false} Pow2Add(a: nat, b: nat)
    ensures Pow2(a + b) == Pow2(a) * Pow2(b)
  {
    if b > 0 {
      Pow2Add(a, b - 1);
    }
  }

  lemma {:induction false} CapacityCovers(n: nat)
    ensures n <= InitialCapacity * Pow2(CapacityExponent(n))
  {
    if n > InitialCapacity {
      CapacityCovers((n + 1) / 2);
    }
  }

  lemma {:induction false} CapacityExponentLeast(n: nat, k: nat)
    requires n <= InitialCapacity * Pow2(k)
    ensures CapacityExponent(n) <= k
  {
    if n > InitialCapacity {
      assert k > 0;
      CapacityExponentLeast((n + 1) / 2, k - 1);
    }
  }

  /** CapacityFor(n) is of the form 1024 * 2^k, holds n bytes, and is the
      smallest value of that form that does: 1024 when n <= 1024, and less
      than twice n otherwise. */
  lemma {:induction false} CapacityForIsLeast(n: nat)
    ensures n <= CapacityFor(n)
    ensures CapacityFor(n) == InitialCapacity * Pow2(CapacityExponent(n))
    ensures n <= InitialCapacity ==> CapacityFor(n) == InitialCapacity
    ensures n > InitialCapacity ==> CapacityFor(n) < 2 * n
    ensures forall k: nat :: n <= InitialCapacity * Pow2(k) ==> CapacityFor(n) <= InitialCapacity * Pow2(k)
  {
    CapacityCovers(n);
    if n > InitialCapacity {
      var m := (n + 1) / 2;
      CapacityCovers(m);
      CapacityForIsLeast(m);
      // m < n, and m's capacity is below 2 * m <= n + 1 unless it is 1024
      assert CapacityFor(n) == 2 * CapacityFor(m);
    }
    forall k: nat | n <= InitialCapacity * Pow2(k)
      ensures CapacityFor(n) <= InitialCapacity * Pow2(k)
    {
      CapacityExponentLeast(n, k);
      Pow2Monotone(CapacityExponent(n), k);
    }
  }

  /** Storing one more byte doubles the capacity exactly when the buffer was
      full, and leaves it alone otherwise. */
  lemma CapacityStep(n: nat)
    ensures CapacityFor(n + 1) == if n == CapacityFor(n) then 2 * CapacityFor(n) else CapacityFor(n)
  {
    var e, e' := CapacityExponent(n), CapacityExponent(n + 1);
    CapacityCovers(n);
    CapacityCovers(n + 1);
    CapacityExponentLeast(n, e');
    if n < CapacityFor(n) {
      CapacityExponentLeast(n + 1, e);
    } else {
      assert InitialCapacity * Pow2(e + 1) == 2 * n;
      CapacityExponentLeast(n + 1, e + 1);
      if e' == e {
        assert false;
      }
    }
  }

  /** While no more than 2^30 bytes have been read, the capacity fits the
      C program's 32-bit `int`. */
  lemma CapacityFitsInt(n: nat)
    requires n <= 0x4000_0000
    ensures CapacityFor(n) <= 0x4000_0000
  {
    Pow2Add(5, 5);
    Pow2Add(10, 10);
    assert Pow2(20) == 0x10_0000;
    CapacityForIsLeast(n);
  }

  // ---------------------------------------------------------------------------
  // The program

  /** `realloc(a, newCapacity)`: a new block holding a copy of the old one. */
  method Realloc(a: array<schar>, newCapacity: nat) returns (b: array<schar>)
    requires a.Length <= newCapacity
    ensures fresh(b) && b.Length == newCapacity
    ensures b[..a.Length] == a[..]
  {
    b := new schar[newCapacity](_ => 0);
    var i := 0;
    while i < a.Length
      invariant 0 <= i <= a.Length
      invariant b[..i] == a[..i]
    {
      b[i] := a[i];
      i := i + 1;
    }
  }

  /** One more byte read from a file that is not EOF extends what it
      contributes so far by that byte. */
  lemma ContributionStep(bytes: seq<byte>, p: nat)
    requires p < |bytes| && bytes[p] != 0xFF
    ensures Contribution(bytes[p..]) == [bytes[p]] + Contribution(bytes[p + 1..])
  {
    assert bytes[p..][1..] == bytes[p + 1..];
  }

  /** Reading the file argv[i] after argv[1..i) extends the output by its
      contribution. */
  lemma ContributionsSnoc(args: seq<string>, i: nat, fs: FileSystem)
    requires 1 <= i < |args| && AllOpenable(args[1..i], fs) && args[i] in fs
    ensures AllOpenable(args[1..i + 1], fs)
    ensures Flatten(Contributions(args[1..i + 1], fs))
         == Flatten(Contributions(args[1..i], fs)) + Contribution(fs[args[i]])
  {
    assert args[1..i + 1][i - 1] == args[i];
    assert args[1..i + 1][..i - 1] == args[1..i];
    assert Contributions(args[1..i + 1], fs)[..i - 1] == Contributions(args[1..i], fs);
  }

  /** The bytes `printf("%c")` writes for the first `size` chars of the buffer. */
  ghost function Stored(buffer: array<schar>, size: nat): seq<byte>
    reads buffer
    requires size <= buffer.Length
  {
    seq(size, j requires 0 <= j < size reads buffer => ToByte(buffer[j]))
  }

  /** The body of the read loop: when the buffer is full its capacity is
      doubled, keeping what it holds; then `c` is stored at `currentSize`,
      which is in bounds, and the size grows by one. */
  method Append(buffer: array<schar>, allocMaxSize: nat, currentSize: nat, c: schar)
    returns (buffer': array<schar>, allocMaxSize': nat, currentSize': nat)
    requires buffer.Length == allocMaxSize == CapacityFor(currentSize)
    requires currentSize <= allocMaxSize
    modifies buffer
    ensures buffer' == buffer || fresh(buffer')
    ensures buffer'.Length == allocMaxSize' == CapacityFor(currentSize')
    ensures currentSize' == currentSize + 1 <= allocMaxSize'
    ensures allocMaxSize' == if currentSize == allocMaxSize then 2 * allocMaxSize else allocMaxSize
    ensures Stored(buffer', currentSize') == old(Stored(buffer, currentSize)) + [ToByte(c)]
  {
    ghost var stored := Stored(buffer, currentSize);
    CapacityStep(currentSize);
    buffer', allocMaxSize' := buffer, allocMaxSize;
    if currentSize == allocMaxSize {
      allocMaxSize' := allocMaxSize * 2;
      buffer' := Realloc(buffer, allocMaxSize');
      assert Stored(buffer', currentSize) == stored;
    }
    buffer'[currentSize] := c;
    currentSize' := currentSize + 1;
    CapacityCovers(currentSize');
  }

  /** The `while ((c = fgetc(fp)) != EOF)` loop of `main`: appends one
      file's contribution to the buffer, doubling the buffer first whenever
      it is full, so that its capacity stays CapacityFor(size). */
  method ReadFile(buffer: array<schar>, allocMaxSize: nat, currentSize: nat, bytes: seq<byte>)
    returns (buffer': array<schar>, allocMaxSize': nat, currentSize': nat)
    requires buffer.Length == allocMaxSize == CapacityFor(currentSize)
    requires currentSize <= allocMaxSize
    modifies buffer
    ensures buffer' == buffer || fresh(buffer')
    ensures buffer'.Length == allocMaxSize' == CapacityFor(currentSize')
    ensures currentSize <= currentSize' <= allocMaxSize'
    ensures Stored(buffer', currentSize') == old(Stored(buffer, currentSize)) + Contribution(bytes)
  {
    ghost var start := Stored(buffer, currentSize);
    CapacityCovers(currentSize);
    buffer', allocMaxSize', currentSize' := buffer, allocMaxSize, currentSize;
    var pos := 0;
    var c := ToChar(Fgetc(bytes, pos));
    pos := pos + 1;
    while c != EOF
      invariant 1 <= pos <= |bytes| + 1
      invariant c == ToChar(Fgetc(bytes, pos - 1))
      invariant buffer' == buffer || fresh(buffer')
      invariant buffer'.Length == allocMaxSize' == CapacityFor(currentSize')
      invariant currentSize <= currentSize' <= allocMaxSize'
      invariant Stored(buffer', currentSize') + Contribution(bytes[pos - 1..]) == start + Contribution(bytes)
      decreases |bytes| + 1 - pos
    {
      buffer', allocMaxSize', currentSize' := Append(buffer', allocMaxSize', currentSize', c);
      ContributionStep(bytes, pos - 1);
      c := ToChar(Fgetc(bytes, pos));
      pos := pos + 1;
    }
    assert Contribution(bytes[pos - 1..]) == [];
  }

  /** The final loop of `main`: writes the first `currentSize` chars of the
      buffer to standard output with `printf("%c")`. */
  method Print(buffer: array<schar>, currentSize: nat) returns (stdout: seq<byte>)
    requires currentSize <= buffer.Length
    ensures |stdout| == currentSize
    ensures forall i :: 0 <= i < currentSize ==> stdout[i] == ToByte(buffer[i])
  {
    stdout := [];
    for i := 0 to currentSize
      invariant |stdout| == i
      invariant forall j :: 0 <= j < i ==> stdout[j] == ToByte(buffer[j])
    {
      stdout := stdout + [ToByte(buffer[i])];
    }
  }

  /** `main(argc, argv)`, with `args` for `argv`. */
  method Run(args: seq<string>, fs: FileSystem)
    returns (status: int, stdout: seq<byte>, stderr: seq<string>, tried: seq<string>)
    ensures Outcome(status, stdout, stderr, tried) == Behaviour(args, fs)
  {
    stdout, stderr, tried := [], [], [];
    if |args| < 2 {
      stderr := stderr + [UsageMessage(ProgramName(args))];
      return 1, stdout, stderr, tried;
    }

    var allocMaxSize: nat := InitialCapacity;
    var currentSize: nat := 0;
    var buffer := new schar[allocMaxSize](_ => 0);
    for i := 1 to |args|
      invariant fresh(buffer)
      invariant buffer.Length == allocMaxSize == CapacityFor(currentSize)
      invariant currentSize <= allocMaxSize
      invariant AllOpenable(args[1..i], fs)
      invariant Stored(buffer, currentSize) == Flatten(Contributions(args[1..i], fs))
      invariant tried == args[1..i]
    {
      tried := tried + [args[i]];
      if args[i] !in fs {
        stderr := stderr + [CannotOpenMessage(args[i])];
        FailsAtFirstUnopenable(args, fs, i);
        return 1, stdout, stderr, tried;
      }
      buffer, allocMaxSize, currentSize := ReadFile(buffer, allocMaxSize, currentSize, fs[args[i]]);
      ContributionsSnoc(args, i, fs);
    }

    stdout := Print(buffer, currentSize);
    assert args[1..|args|] == args[1..];
    return 0, stdout, stderr, tried;
  }

  // ---------------------------------------------------------------------------
  // Properties of the specification

  /** A file adds exactly its bytes before the first 0xFF, or all of it when
      it has none. */
  lemma {:induction false} ContributionIsPrefixBeforeFF(bytes: seq<byte>)
    ensures |Contribution(bytes)| <= |bytes|
    ensures Contribution(bytes) == bytes[..|Contribution(bytes)|]
    ensures 0xFF !in Contribution(bytes)
    ensures |Contribution(bytes)| == |bytes| || bytes[|Contribution(bytes)|] == 0xFF
    ensures Contribution(bytes) == bytes <==> 0xFF !in bytes
  {
    if |bytes| > 0 && ToChar(bytes[0]) != EOF {
      ContributionIsPrefixBeforeFF(bytes[1..]);
      assert bytes == [bytes[0]] + bytes[1..];
    }
  }

  lemma {:induction false} FlattenAppend(parts: seq<seq<byte>>, more: seq<seq<byte>>)
    ensures Flatten(parts + more) == Flatten(parts) + Flatten(more)
    decreases |more|
  {
    if |more| == 0 {
      assert parts + more == parts;
    } else {
      var last := |more| - 1;
      assert (parts + more)[..|parts + more| - 1] == parts + more[..last];
      FlattenAppend(parts, more[..last]);
    }
  }

  /** Output starts with the first file's contribution and goes on with the
      rest, in argument order. */
  lemma FlattenCons(part: seq<byte>, parts: seq<seq<byte>>)
    ensures Flatten([part] + parts) == part + Flatten(parts)
  {
    FlattenAppend([part], parts);
    assert Flatten([part]) == Flatten([]) + part;
  }

  /** With no arguments the run fails with a usage message and opens nothing. */
  lemma UsageWithoutFiles(args: seq<string>, fs: FileSystem)
    requires |args| < 2
    ensures Behaviour(args, fs).status == 1
    ensures Behaviour(args, fs).stdout == [] && Behaviour(args, fs).tried == []
    ensures Behaviour(args, fs).stderr == [UsageMessage(ProgramName(args))]
  {
  }

  /** The first file that cannot be opened ends the run: status 1, one
      message naming it, nothing on standard output, and no file after it
      is opened. */
  lemma FailsAtFirstUnopenable(args: seq<string>, fs: FileSystem, k: nat)
    requires 1 <= k < |args| && args[k] !in fs
    requires AllOpenable(args[1..k], fs)
    ensures Behaviour(args, fs) == Outcome(1, [], [CannotOpenMessage(args[k])], args[1..k + 1])
  {
    var files := args[1..];
    assert files[k - 1] == args[k];
    assert forall j :: 0 <= j < k - 1 ==> files[j] == args[1..k][j];
    assert FirstUnopenable(files, fs) == k - 1;
    assert files[..k] == args[1..k + 1];
  }

  /** A run succeeds exactly when at least one file is named and every
      named file can be opened; it then writes the files' contributions,
      concatenated in argument order, and nothing to standard error. */
  lemma SucceedsIffAllOpenable(args: seq<string>, fs: FileSystem)
    ensures Behaviour(args, fs).status == 0 <==> |args| >= 2 && AllOpenable(args[1..], fs)
    ensures Behaviour(args, fs).status == 0 ==>
      Behaviour(args, fs).stdout == Flatten(Contributions(args[1..], fs)) &&
      Behaviour(args, fs).stderr == [] && Behaviour(args, fs).tried == args[1..]
    ensures Behaviour(args, fs).status != 0 ==>
      Behaviour(args, fs).status == 1 && Behaviour(args, fs).stdout == [] && |Behaviour(args, fs).stderr| == 1
  {
  }

  /** When no named file contains byte 0xFF, the output is the files'
      contents, whole, concatenated in argument order. */
  lemma WholeFilesWithoutFF(args: seq<string>, fs: FileSystem)
    requires |args| >= 2 && AllOpenable(args[1..], fs)
    requires forall i :: 1 <= i < |args| ==> 0xFF !in fs[args[i]]
    ensures Behaviour(args, fs).status == 0
    ensures Behaviour(args, fs).stdout == Flatten(seq(|args| - 1, i requires 0 <= i < |args| - 1 => fs[args[i + 1]]))
  {
    var files := args[1..];
    SucceedsIffAllOpenable(args, fs);
    forall i | 0 <= i < |files|
      ensures Contribution(fs[files[i]]) == fs[args[i + 1]]
    {
      ContributionIsPrefixBeforeFF(fs[files[i]]);
    }
    assert Contributions(files, fs) == seq(|args| - 1, i requires 0 <= i < |args| - 1 => fs[args[i + 1]]);
  }
}
