/** The initial stack page of a spawned program (init_stack of lib/spawn.c). */
module SpawnStack {
  import opened FsBytes
  import opened Queue
  import opened Errors

  const PGSIZE: nat := 4096
  const UTEMP: nat := 0x40_0000
  const USTACKTOP: nat := 0xeebf_e000
  const BASE: nat := USTACKTOP - PGSIZE   // where the child sees the page

  type Arg = seq<nat>

  /** A C string: bytes, none of them zero. */
  predicate IsArg(s: Arg) { forall i :: 0 <= i < |s| ==> 0 < s[i] < 256 }

  predicate IsArgv(argv: seq<Arg>) { forall i :: 0 <= i < |argv| ==> IsArg(argv[i]) }

  /** The room that the strings take, each with its end. */
  function Size(argv: seq<Arg>): nat {
    if argv == [] then 0 else |argv[0]| + 1 + Size(argv[1..])
  }

  // ---- Does it fit? ----

  /** The offset of the argument array in the page, were there room for it. */
  function ArgvOffset(size: int, argc: nat): int { (PGSIZE - size) - (PGSIZE - size) % 4 - 4 * (argc + 1) }

  predicate Fits(argv: seq<Arg>) { ArgvOffset(Size(argv), |argv|) - 8 >= 0 }

  function Wrap(x: int): nat { x % 0x1_0000_0000 }

  /** The test of the source, on 32-bit addresses. */
  predicate TooLarge(size: nat, argc: nat) {
    var stringStore := Wrap(UTEMP + PGSIZE - size);
    var argvStore := Wrap(stringStore - stringStore % 4 - 4 * (argc + 1));
    Wrap(argvStore - 8) < UTEMP
  }

  /** Adding to a wrapped number. */
  lemma WrapSum(x: int, y: int)
    ensures Wrap(Wrap(x) + y) == Wrap(x + y) && Wrap(x) % 4 == x % 4
  {
    var q := x / 0x1_0000_0000;
    assert x == 0x1_0000_0000 * q + Wrap(x);
    assert x == 4 * (0x4000_0000 * q) + Wrap(x);
    WrapShift(Wrap(x) + y, q);
  }

  lemma {:induction false} WrapShift(x: int, q: int)
    ensures Wrap(x + 0x1_0000_0000 * q) == Wrap(x)
    decreases if q < 0 then -q else q
  {
    if q > 0 {
      WrapShift(x, q - 1);
      assert Wrap(x + 0x1_0000_0000 * (q - 1) + 0x1_0000_0000) == Wrap(x + 0x1_0000_0000 * (q - 1));
    } else if q < 0 {
      WrapShift(x, q + 1);
      assert Wrap(x + 0x1_0000_0000 * (q + 1) - 0x1_0000_0000) == Wrap(x + 0x1_0000_0000 * (q + 1));
    }
  }

  /** The test refuses exactly the lists whose first word falls, on 32 bits, below
      the page.  With less than 4 GB of arguments and pointers it lets pass the
      lists that fit and the ones so long that their address falls below zero. */
  lemma TooLargeExactly(size: nat, argc: nat)
    ensures TooLarge(size, argc) <==> Wrap(UTEMP + ArgvOffset(size, argc) - 8) < UTEMP
    ensures size + 4 * argc < 0xff00_0000 ==>
              (TooLarge(size, argc) <==> ArgvOffset(size, argc) - 8 < 0 && UTEMP + ArgvOffset(size, argc) - 8 >= 0)
    ensures ArgvOffset(size, argc) - 8 >= 0 ==> !TooLarge(size, argc)
  {
    hide TooLarge, ArgvOffset, Wrap;
    TestWraps(size, argc);
    LowAddress(size, argc, UTEMP + ArgvOffset(size, argc) - 8);
  }

  lemma TestWraps(size: nat, argc: nat)
    ensures TooLarge(size, argc) <==> Wrap(UTEMP + ArgvOffset(size, argc) - 8) < UTEMP
  {
    hide Wrap;
    var start := UTEMP + PGSIZE - size;
    var room := 4 * (argc + 1);
    var stringStore := Wrap(start);
    WrapSum(start, -(start % 4) - room);
    assert stringStore % 4 == start % 4;
    assert Wrap(stringStore - stringStore % 4 - room) == Wrap(start - start % 4 - room);
    WrapSum(start - start % 4 - room, -8);
    assert start % 4 == (PGSIZE - size) % 4;
  }

  lemma LowAddress(size: nat, argc: nat, low: int)
    requires low == UTEMP + ArgvOffset(size, argc) - 8
    ensures size + 4 * argc < 0xff00_0000 ==> Wrap(low) == if low >= 0 then low else low + 0x1_0000_0000
    ensures size + 4 * argc < 0xff00_0000 ==> -0xff00_0000 <= low <= UTEMP + PGSIZE
    ensures low >= UTEMP ==> Wrap(low) == low
  {
    var part := (PGSIZE - size) % 4;
    assert low == UTEMP + PGSIZE - size - part - 4 * (argc + 1) - 8 && 0 <= part < 4;
  }

  /** That the sum of the lengths wraps around as well makes no difference. */
  lemma TooLargeWrapped(size: nat, argc: nat)
    ensures TooLarge(Wrap(size), argc) <==> TooLarge(size, argc)
  {
    WrapShift(UTEMP + PGSIZE - size, size / 0x1_0000_0000);
    assert UTEMP + PGSIZE - size + 0x1_0000_0000 * (size / 0x1_0000_0000) == UTEMP + PGSIZE - Wrap(size);
  }

  /** An address in the page. */
  predicate InPage(address: nat) { UTEMP <= address < UTEMP + PGSIZE }

  /** The code stores inside the page only: argc, argv, the pointers with their
      end, and the strings, all at 32-bit addresses. */
  ghost predicate StaysInside(size: nat, argc: nat) {
    var low, start := UTEMP + ArgvOffset(size, argc) - 8, UTEMP + PGSIZE - size;
    && (forall x :: low <= x < low + 8 + 4 * (argc + 1) ==> InPage(Wrap(x)))
    && (forall x :: start <= x < start + size ==> InPage(Wrap(x)))
  }

  /** It does so if and only if the list fits. */
  lemma StaysInsideExactly(size: nat, argc: nat)
    ensures StaysInside(size, argc) <==> ArgvOffset(size, argc) - 8 >= 0
  {
    hide InPage;
    var low, start := UTEMP + ArgvOffset(size, argc) - 8, UTEMP + PGSIZE - size;
    var words := 8 + 4 * (argc + 1);
    assert low + words == start - start % 4;
    if low >= UTEMP {
      forall x | UTEMP <= x < UTEMP + PGSIZE ensures InPage(Wrap(x)) {
        PageAddress(x);
      }
    } else {
      var x := if low + words <= UTEMP - 1 < start then low + words - 1 else UTEMP - 1;
      PageAddress(x);
      assert !InPage(Wrap(x)) && (low <= x < low + words || start <= x < start + size);
    }
  }

  lemma PageAddress(x: int)
    requires 0 <= x < UTEMP + PGSIZE
    ensures Wrap(x) == x && (InPage(x) <==> x >= UTEMP)
  {
  }

  /** One argument of four megabytes passes the test and does not fit. */
  lemma TooLargeMisses()
    ensures !TooLarge(0x40_1001, 0) && ArgvOffset(0x40_1001, 0) - 8 < 0 && !StaysInside(0x40_1001, 0)
  {
    StaysInsideExactly(0x40_1001, 0);
  }

  /** A list that fits takes no more than the page. */
  lemma SmallSize(argv: seq<Arg>)
    requires Fits(argv)
    ensures Wrap(Size(argv)) == Size(argv) <= PGSIZE
    ensures var start := PGSIZE - Size(argv);
            ArgvOffset(Size(argv), |argv|) == start - start % 4 - 4 * (|argv| + 1) >= 8
  {
    hide Size;
    var size := Size(argv);
    assert (PGSIZE - size) % 4 >= 0;
    assert size <= PGSIZE;
  }

  // ---- The layout ----

  /** Where string `i` starts; the end of the page for i == argc. */
  function StringAt(argv: seq<Arg>, i: nat): int
    requires i <= |argv|
  {
    PGSIZE - Size(argv[i..])
  }

  lemma NextString(argv: seq<Arg>, i: nat)
    requires i < |argv|
    ensures StringAt(argv, i + 1) == StringAt(argv, i) + |argv[i]| + 1
  {
    assert argv[i..][1..] == argv[i + 1..];
  }

  lemma {:induction false} StringOrder(argv: seq<Arg>, i: nat, j: nat)
    requires i <= j <= |argv|
    ensures StringAt(argv, i) + (j - i) <= StringAt(argv, j) <= PGSIZE
    decreases j - i
  {
    if i < j {
      NextString(argv, i);
      StringOrder(argv, i + 1, j);
    }
  }

  /** The first word of the stack: its position in words. */
  function StackWord(argv: seq<Arg>): nat {
    if Fits(argv) then (ArgvOffset(Size(argv), |argv|) - 8) / 4 else 0
  }

  /** Header, pointers and strings follow one another inside the page. */
  lemma Regions(argv: seq<Arg>)
    requires Fits(argv)
    ensures 4 * (StackWord(argv) + 2) == ArgvOffset(Size(argv), |argv|)
    ensures 4 * (StackWord(argv) + 2 + |argv| + 1) <= StringAt(argv, 0) <= PGSIZE && StringAt(argv, |argv|) == PGSIZE
  {
    assert argv[0..] == argv;
    Aligned(Size(argv), |argv|);
  }

  lemma Aligned(size: int, argc: nat)
    ensures var o := ArgvOffset(size, argc); o % 4 == 0 && (o - 8) % 4 == 0 && o + 4 * (argc + 1) <= PGSIZE - size
  {
    assert ArgvOffset(size, argc) == 4 * ((PGSIZE - size) / 4 - (argc + 1));
  }

  /** One turn of the loop: the pointer and the string of argument `i`. */
  function StoreArg(b: Block, argv: seq<Arg>, i: nat): Block
    requires i < |argv|
  {
    var at := StringAt(argv, i);
    if at < 0 then b else Splice(PutWord(b, StackWord(argv) + 2 + i, BASE + at), at, argv[i] + [0])
  }

  /** The pointers and strings of the first `n` arguments are in place. */
  ghost predicate Stored(b: Block, argv: seq<Arg>, n: nat) {
    n <= |argv| && IsBlock(b) &&
    forall i :: 0 <= i < n ==> HasArg(b, argv, i)
  }

  ghost predicate HasArg(b: Block, argv: seq<Arg>, i: nat) {
    i < |argv| &&
    var at := StringAt(argv, i);
    && 0 <= at && at + |argv[i]| < |b| && b[at..at + |argv[i]| + 1] == argv[i] + [0]
    && Word(b, StackWord(argv) + 2 + i) == BASE + at
  }

  /** Storing one argument leaves the earlier ones in place. */
  lemma StoreArgCorrect(b: Block, argv: seq<Arg>, i: nat)
    requires IsArgv(argv) && Fits(argv) && i < |argv| && Stored(b, argv, i)
    ensures Stored(StoreArg(b, argv, i), argv, i + 1)
  {
    hide Splice, PutWord, Word, StringAt, StackWord, Fits;
    Regions(argv);
    StringOrder(argv, 0, i);
    NextString(argv, i);
    StringOrder(argv, i + 1, |argv|);
    var at := StringAt(argv, i);
    var k := StackWord(argv) + 2 + i;
    var b1 := PutWord(b, k, BASE + at);
    PutWordCorrect(b, k, BASE + at);
    SpliceCorrect(b1, at, argv[i] + [0]);
    var r := Splice(b1, at, argv[i] + [0]);
    forall j | 0 <= j < i ensures HasArg(r, argv, j) {
      assert HasArg(b, argv, j);
      NextString(argv, j);
      StringOrder(argv, 0, j);
      StringOrder(argv, j + 1, i);
      var from := StringAt(argv, j);
      assert r[from..from + |argv[j]| + 1] == b[from..from + |argv[j]| + 1];
    }
    assert HasArg(r, argv, i);
  }

  /** The last three words: the end of the pointers, and the two parameters of umain. */
  function StoreHeader(b: Block, argv: seq<Arg>): Block {
    var w := StackWord(argv);
    PutWord(PutWord(PutWord(b, w + 2 + |argv|, 0), w + 1, BASE + 4 * (w + 2)), w, |argv|)
  }

  ghost predicate Complete(b: Block, argv: seq<Arg>) {
    var w := StackWord(argv);
    && Stored(b, argv, |argv|)
    && Word(b, w) == |argv| && Word(b, w + 1) == BASE + 4 * (w + 2) && Word(b, w + 2 + |argv|) == 0
  }

  lemma ArgKept(b: Block, argv: seq<Arg>, i: nat, k: nat, v: nat)
    requires IsBlock(b) && Fits(argv) && HasArg(b, argv, i) && v < WORD_LIMIT
    requires k < StackWord(argv) + 2 || k == StackWord(argv) + 2 + |argv|
    ensures HasArg(PutWord(b, k, v), argv, i)
  {
    hide PutWord, Word, StringAt, StackWord, Fits;
    Regions(argv);
    StringOrder(argv, 0, i);
    PutWordCorrect(b, k, v);
    var at := StringAt(argv, i);
    assert PutWord(b, k, v)[at..at + |argv[i]| + 1] == b[at..at + |argv[i]| + 1];
  }

  lemma StoreHeaderCorrect(b: Block, argv: seq<Arg>)
    requires IsArgv(argv) && Fits(argv) && Stored(b, argv, |argv|)
    ensures Complete(StoreHeader(b, argv), argv)
  {
    hide PutWord, Word, StringAt, StackWord, Fits, HasArg;
    Regions(argv);
    var w := StackWord(argv);
    var b1 := PutWord(b, w + 2 + |argv|, 0);
    var b2 := PutWord(b1, w + 1, BASE + 4 * (w + 2));
    PutWordCorrect(b, w + 2 + |argv|, 0);
    PutWordCorrect(b1, w + 1, BASE + 4 * (w + 2));
    PutWordCorrect(b2, w, |argv|);
    forall i | 0 <= i < |argv| ensures HasArg(StoreHeader(b, argv), argv, i) {
      assert HasArg(b, argv, i);
      ArgKept(b, argv, i, w + 2 + |argv|, 0);
      ArgKept(b1, argv, i, w + 1, BASE + 4 * (w + 2));
      ArgKept(b2, argv, i, w, |argv|);
    }
  }

  // ---- What the child reads ----

  /** The string at offset `at`, if it ends inside the page. */
  function CString(b: Block, at: nat): Option<Arg>
    decreases if at < |b| then |b| - at else 0
  {
    if at >= |b| then None
    else if b[at] == 0 then Some([])
    else
      match CString(b, at + 1)
      case None => None
      case Some(rest) => Some([b[at]] + rest)
  }

  /** The strings behind the `n` pointers from word `k` on. */
  function Args(b: Block, k: nat, n: nat): Option<seq<Arg>> {
    if n == 0 then Some([])
    else
      var p := Word(b, k + n - 1);
      if p < BASE then None
      else
        match (Args(b, k, n - 1), CString(b, p - BASE))
        case (Some(front), Some(last)) => Some(front + [last])
        case _ => None
  }

  /** What a program started with stack pointer `esp` finds as argc and argv. */
  function Decode(b: Block, esp: nat): Option<seq<Arg>> {
    if esp < BASE || esp % 4 != 0 then None
    else
      var w := (esp - BASE) / 4;
      var argc := Word(b, w);
      var argv := Word(b, w + 1);
      if argv < BASE || argv % 4 != 0 || Word(b, (argv - BASE) / 4 + argc) != 0 then None
      else Args(b, (argv - BASE) / 4, argc)
  }

  lemma {:induction false} CStringReads(b: Block, at: nat, s: Arg)
    requires IsArg(s) && at + |s| < |b| && b[at..at + |s| + 1] == s + [0]
    ensures CString(b, at) == Some(s)
    decreases |s|
  {
    assert b[at] == (s + [0])[0];
    if s != [] {
      assert b[at + 1..at + |s| + 1] == b[at..at + |s| + 1][1..] == s[1..] + [0];
      CStringReads(b, at + 1, s[1..]);
      assert [s[0]] + s[1..] == s;
    }
  }

  lemma {:induction false} ArgsRead(b: Block, argv: seq<Arg>, n: nat)
    requires IsArgv(argv) && n <= |argv| && Stored(b, argv, n)
    ensures Args(b, StackWord(argv) + 2, n) == Some(argv[..n])
  {
    hide Word, StackWord, CString, StringAt;
    if n == 0 {
      assert argv[..0] == [];
    } else {
      ArgsRead(b, argv, n - 1);
      assert HasArg(b, argv, n - 1);
      CStringReads(b, StringAt(argv, n - 1), argv[n - 1]);
      assert argv[..n - 1] + [argv[n - 1]] == argv[..n];
    }
  }

  /** The child reads back exactly the argument list of its parent. */
  lemma RoundTrip(b: Block, argv: seq<Arg>)
    requires IsArgv(argv) && Fits(argv) && Complete(b, argv)
    ensures Decode(b, BASE + 4 * StackWord(argv)) == Some(argv)
  {
    hide Word, StackWord, HasArg, Args;
    ArgsRead(b, argv, |argv|);
    assert argv[..|argv|] == argv;
  }

  // ---- The code ----

  method StoreWord(page: array<nat>, k: nat, w: nat)
    requires page.Length == PGSIZE && k < WORDS
    modifies page
    ensures page[..] == PutWord(old(page[..]), k, w)
  {
    page[4 * k] := w % 0x100;
    page[4 * k + 1] := w / 0x100 % 0x100;
    page[4 * k + 2] := w / 0x1_0000 % 0x100;
    page[4 * k + 3] := w / 0x100_0000 % 0x100;
  }

  method StrCpy(page: array<nat>, at: nat, s: Arg)
    requires at + |s| < page.Length
    modifies page
    ensures page[..] == Splice(old(page[..]), at, s + [0])
  {
    var i := 0;
    while i < |s|
      invariant 0 <= i <= |s|
      invariant forall k :: 0 <= k < page.Length ==>
                  page[k] == if at <= k < at + i then s[k - at] else old(page[k])
    {
      page[at + i] := s[i];
      i := i + 1;
    }
    page[at + |s|] := 0;
    SplicePoints(old(page[..]), page[..], at, s + [0]);
  }

  lemma SplicePoints(b: Block, r: Block, at: nat, s: seq<nat>)
    requires |r| == |b| && at + |s| <= |b|
    requires forall k :: 0 <= k < |b| ==> r[k] == if at <= k < at + |s| then s[k - at] else b[k]
    ensures r == Splice(b, at, s)
  {
  }

  /** The first loop: argc and the room for the strings, on 32 bits. */
  method CountArgs(argv: seq<Arg>) returns (argc: nat, stringSize: nat)
    ensures argc == |argv| && stringSize == Wrap(Size(argv))
  {
    stringSize, argc := 0, 0;
    ghost var total: nat := 0;
    while argc < |argv|
      invariant argc <= |argv| && Size(argv) == total + Size(argv[argc..]) && stringSize == Wrap(total)
    {
      assert argv[argc..][1..] == argv[argc + 1..];
      WrapSum(total, |argv[argc]| + 1);
      total := total + |argv[argc]| + 1;
      stringSize := Wrap(stringSize + |argv[argc]| + 1);
      argc := argc + 1;
    }
  }

  /** The second loop, on a page that fits and is mapped. */
  method StoreArgs(argv: seq<Arg>, page: array<nat>, stringStart: nat, argvStore: nat)
    requires IsArgv(argv) && Fits(argv) && page.Length == PGSIZE && IsBlock(page[..])
    requires stringStart == PGSIZE - Size(argv) && argvStore == ArgvOffset(Size(argv), |argv|)
    modifies page
    ensures Stored(page[..], argv, |argv|)
  {
    hide Splice, PutWord, Word, StackWord, HasArg, Fits, ArgvOffset;
    Regions(argv);
    assert argv[0..] == argv;
    var stringStore := stringStart;
    var i := 0;
    while i < |argv|
      invariant i <= |argv| && stringStore == StringAt(argv, i) && Stored(page[..], argv, i)
    {
      NextString(argv, i);
      StringOrder(argv, 0, i);
      StringOrder(argv, i + 1, |argv|);
      StoreArgCorrect(page[..], argv, i);
      StoreWord(page, argvStore / 4 + i, BASE + stringStore);
      StrCpy(page, stringStore, argv[i]);
      stringStore := stringStore + |argv[i]| + 1;
      i := i + 1;
    }
    assert stringStore == PGSIZE;   // the assertion of the source
  }

  /** init_stack: `allocError`, `mapError` and `unmapError` are the answers of the
      three system calls.  When it succeeds, the page and the stack pointer give
      the child the argument list of the parent.  `outside` says that the code
      goes on to store outside the page, which it does exactly when the test lets a
      list pass that does not fit. */
  method InitStack(argv: seq<Arg>, page: array<nat>, allocError: int, mapError: int, unmapError: int)
    returns (r: int, initEsp: nat, outside: bool)
    requires IsArgv(argv) && page.Length == PGSIZE && allocError <= 0 && mapError <= 0 && unmapError <= 0
    modifies page
    ensures outside <==> !TooLarge(Size(argv), |argv|) && allocError == 0 && !StaysInside(Size(argv), |argv|)
    ensures !outside ==>
              r == if TooLarge(Size(argv), |argv|) then -E_NO_MEM else if allocError < 0 then allocError
                   else if mapError < 0 then mapError else unmapError
    ensures Fits(argv) && allocError == 0 ==> Complete(page[..], argv) && initEsp == BASE + 4 * StackWord(argv)
    ensures !outside && r == 0 ==>
              initEsp % 4 == 0 && BASE <= initEsp < USTACKTOP && Decode(page[..], initEsp) == Some(argv)
  {
    hide PutWord, Word, Decode, Stored, StringAt, TooLarge, StaysInside, ArgvOffset;
    var argc, stringSize := CountArgs(argv);
    initEsp, outside := 0, false;
    TooLargeExactly(Size(argv), argc);
    TooLargeWrapped(Size(argv), argc);
    StaysInsideExactly(Size(argv), argc);
    if TooLarge(stringSize, argc) {
      return -E_NO_MEM, initEsp, false;
    }
    if allocError < 0 {
      return allocError, initEsp, false;
    }
    if !Fits(argv) {
      return 0, initEsp, true;
    }
    SmallSize(argv);
    var stringStore := PGSIZE - stringSize;
    var argvStore := stringStore - stringStore % 4 - 4 * (argc + 1);
    Regions(argv);
    forall i | 0 <= i < PGSIZE {
      page[i] := 0;
    }
    StoreArgs(argv, page, stringStore, argvStore);
    StoreHeaderCorrect(page[..], argv);
    StoreWord(page, argvStore / 4 + argc, 0);
    StoreWord(page, argvStore / 4 - 1, BASE + argvStore);
    StoreWord(page, argvStore / 4 - 2, argc);
    initEsp := BASE + argvStore - 8;
    RoundTrip(page[..], argv);
    r := if mapError < 0 then mapError else unmapError;
  }
}
