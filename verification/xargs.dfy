/**
 The `xargs` user program: it reads standard input, splits each line into
 words at single spaces, and for every newline runs its own arguments
 followed by that line's words as one command.

 The commands are the model's output; fork, exec and wait are left to the
 caller. Input bytes are characters, and a word is handed to exec as the C
 string stored for it, so a NUL byte inside a word ends that argument.
 */
module Xargs {
  import opened Collections
  import opened CString

  /** The size of both stdin_buf and args. */
  const MAXARG: nat := 32

  /** One exec: the program (None when xargs has no argument to run) and its argument vector. */
  datatype Command = Command(prog: Option<string>, args: seq<string>)

  /** The program xargs runs: its first argument, argv[1], or the null pointer when there is none. */
  function Program(argv: seq<string>): Option<string>
  {
    if |argv| >= 2 then Some(argv[1]) else None
  }

  /** The C strings stored for a list of words. */
  function CStrs(ws: seq<seq<char>>): (r: seq<string>)
    ensures |r| == |ws| && forall k :: 0 <= k < |ws| ==> r[k] == CStr(ws[k])
  {
    if |ws| == 0 then [] else [CStr(ws[0])] + CStrs(ws[1..])
  }

  /** The command for a line whose words are `ws`: xargs' own arguments, then the words. */
  function LineCommand(argv: seq<string>, ws: seq<seq<char>>): Command
    requires |argv| >= 1
  {
    Command(Program(argv), argv[1..] + CStrs(ws))
  }

  /**
   The byte-at-a-time tokeniser: the commands run for `input` when the current
   line so far holds the finished words `ws` and the unfinished word `cur`.
   */
  function Commands(argv: seq<string>, input: seq<char>, ws: seq<seq<char>>, cur: seq<char>): seq<Command>
    requires |argv| >= 1
    decreases |input|
  {
    if |input| == 0 then []
    else if input[0] == '\n' then [LineCommand(argv, ws + [cur])] + Commands(argv, input[1..], [], [])
    else if input[0] == ' ' then Commands(argv, input[1..], ws + [cur], [])
    else Commands(argv, input[1..], ws, cur + [input[0]])
  }

  /** The commands xargs runs for the whole of `input`. */
  function Xargs(argv: seq<string>, input: seq<char>): seq<Command>
    requires |argv| >= 1
  {
    Commands(argv, input, [], [])
  }

  /**
   The reference: one command per complete line (the text after the last
   newline is not a line), whose words are the line split at every space.
   */
  function PerLine(argv: seq<string>, input: seq<char>): (r: seq<Command>)
    requires |argv| >= 1
    ensures |r| == |Split(input, '\n')| - 1
    ensures forall k :: 0 <= k < |r| ==> r[k] == LineCommand(argv, Split(Split(input, '\n')[k], ' '))
  {
    var lines := Split(input, '\n');
    seq(|lines| - 1, k requires 0 <= k < |lines| - 1 => LineCommand(argv, Split(lines[k], ' ')))
  }

  /** PerLine with `ws` put before the words of the first line. */
  function LinesFrom(argv: seq<string>, ws: seq<seq<char>>, lines: seq<seq<char>>): seq<Command>
    requires |argv| >= 1 && |lines| >= 1
    decreases |lines|
  {
    if |lines| == 1 then []
    else [LineCommand(argv, ws + Split(lines[0], ' '))] + LinesFrom(argv, [], lines[1..])
  }

  /** The k-th command of LinesFrom is the k-th line's, with `ws` in front of the first. */
  lemma {:induction false} LinesFromAt(argv: seq<string>, ws: seq<seq<char>>, lines: seq<seq<char>>)
    requires |argv| >= 1 && |lines| >= 1
    ensures |LinesFrom(argv, ws, lines)| == |lines| - 1
    ensures forall k :: 0 <= k < |lines| - 1 ==>
      LinesFrom(argv, ws, lines)[k] == LineCommand(argv, (if k == 0 then ws else []) + Split(lines[k], ' '))
    decreases |lines|
  {
    if |lines| > 1 {
      var tail := lines[1..];
      LinesFromAt(argv, [], tail);
      forall k | 1 <= k < |lines| - 1
        ensures LinesFrom(argv, ws, lines)[k] == LineCommand(argv, [] + Split(lines[k], ' '))
      {
        assert tail[k - 1] == lines[k];
      }
    }
  }

  /** A newline after `cur` ends the first line with the word `cur`. */
  lemma LinesFromNewline(argv: seq<string>, ws: seq<seq<char>>, cur: seq<char>, lines: seq<seq<char>>)
    requires |argv| >= 1 && |lines| >= 1 && ' ' !in cur
    ensures LinesFrom(argv, ws, [cur] + lines) == [LineCommand(argv, ws + [cur])] + LinesFrom(argv, [], lines)
  {
    assert Split(cur, ' ') == [cur];
    assert ([cur] + lines)[1..] == lines;
  }

  lemma SpaceEndsWord(ws: seq<seq<char>>, cur: seq<char>, rest: seq<char>)
    requires ' ' !in cur
    ensures ws + Split(cur + [' '] + rest, ' ') == (ws + [cur]) + Split(rest, ' ')
  {
    SplitSep(cur, rest, ' ');
  }

  /** A space after `cur` makes `cur` a finished word of the first line. */
  lemma LinesFromSpace(argv: seq<string>, ws: seq<seq<char>>, cur: seq<char>, lines: seq<seq<char>>)
    requires |argv| >= 1 && |lines| >= 1 && ' ' !in cur
    ensures LinesFrom(argv, ws, [cur + [' '] + lines[0]] + lines[1..]) == LinesFrom(argv, ws + [cur], lines)
  {
    var ls := [cur + [' '] + lines[0]] + lines[1..];
    assert ls[1..] == lines[1..];
    SpaceEndsWord(ws, cur, lines[0]);
  }

  /** The tokeniser from any state agrees with the line-by-line reading of the rest of the line and input. */
  lemma {:induction false} CommandsAreLines(argv: seq<string>, input: seq<char>, ws: seq<seq<char>>, cur: seq<char>)
    requires |argv| >= 1 && ' ' !in cur && '\n' !in cur
    ensures Commands(argv, input, ws, cur) == LinesFrom(argv, ws, Split(cur + input, '\n'))
    decreases |input|
  {
    if |input| == 0 {
      assert cur + input == cur;
    } else {
      var rest := input[1..];
      assert input == [input[0]] + rest;
      if input[0] == '\n' {
        CommandsAreLines(argv, rest, [], []);
        assert [] + rest == rest;
        assert cur + input == cur + ['\n'] + rest;
        SplitSep(cur, rest, '\n');
        LinesFromNewline(argv, ws, cur, Split(rest, '\n'));
      } else if input[0] == ' ' {
        CommandsAreLines(argv, rest, ws + [cur], []);
        assert [] + rest == rest;
        assert cur + input == (cur + [' ']) + rest;
        SplitPrepend(cur + [' '], rest, '\n');
        LinesFromSpace(argv, ws, cur, Split(rest, '\n'));
      } else {
        CommandsAreLines(argv, rest, ws, cur + [input[0]]);
        assert cur + input == (cur + [input[0]]) + rest;
      }
    }
  }

  /** xargs runs exactly the reference's commands. */
  lemma XargsIsPerLine(argv: seq<string>, input: seq<char>)
    requires |argv| >= 1
    ensures Xargs(argv, input) == PerLine(argv, input)
  {
    CommandsAreLines(argv, input, [], []);
    assert [] + input == input;
    var lines := Split(input, '\n');
    LinesFromAt(argv, [], lines);
    var l := LinesFrom(argv, [], lines);
    var r := PerLine(argv, input);
    forall k | 0 <= k < |l| ensures l[k] == r[k] {
      assert [] + Split(lines[k], ' ') == Split(lines[k], ' ');
    }
  }

  /** Text with no newline runs nothing, whatever the state. */
  lemma {:induction false} NoNewlineNoCommand(argv: seq<string>, t: seq<char>, ws: seq<seq<char>>, cur: seq<char>)
    requires |argv| >= 1 && '\n' !in t
    ensures Commands(argv, t, ws, cur) == []
    decreases |t|
  {
    if |t| > 0 {
      assert t == [t[0]] + t[1..];
      if t[0] == ' ' {
        NoNewlineNoCommand(argv, t[1..], ws + [cur], []);
      } else {
        NoNewlineNoCommand(argv, t[1..], ws, cur + [t[0]]);
      }
    }
  }

  /** After a newline the state is reset: what follows is tokenised on its own. */
  lemma {:induction false} CommandsAppend(argv: seq<string>, a: seq<char>, b: seq<char>, ws: seq<seq<char>>, cur: seq<char>)
    requires |argv| >= 1 && |a| > 0 && a[|a| - 1] == '\n'
    ensures Commands(argv, a + b, ws, cur) == Commands(argv, a, ws, cur) + Xargs(argv, b)
    decreases |a|
  {
    var ab := a + b;
    assert ab[0] == a[0];
    if |a| == 1 {
      assert ab[1..] == b;
      assert a[1..] == [];
    } else {
      assert ab[1..] == a[1..] + b;
      if a[0] == '\n' {
        CommandsAppend(argv, a[1..], b, [], []);
      } else if a[0] == ' ' {
        CommandsAppend(argv, a[1..], b, ws + [cur], []);
      } else {
        CommandsAppend(argv, a[1..], b, ws, cur + [a[0]]);
      }
    }
  }

  /** Text after the last newline is never run. */
  lemma UnterminatedTailIgnored(argv: seq<string>, a: seq<char>, t: seq<char>)
    requires |argv| >= 1 && '\n' !in t
    requires |a| == 0 || a[|a| - 1] == '\n'
    ensures Xargs(argv, a + t) == Xargs(argv, a)
  {
    NoNewlineNoCommand(argv, t, [], []);
    if |a| > 0 {
      CommandsAppend(argv, a, t, [], []);
    } else {
      assert a + t == t;
    }
  }

  /** Every command runs argv[1] with xargs' own arguments first, one command per newline. */
  lemma CommandShape(argv: seq<string>, input: seq<char>)
    requires |argv| >= 1
    ensures |Xargs(argv, input)| == multiset(input)['\n']
    ensures forall k :: 0 <= k < |Xargs(argv, input)| ==>
      && Xargs(argv, input)[k].prog == Program(argv)
      && |Xargs(argv, input)[k].args| >= |argv|
      && Xargs(argv, input)[k].args[..|argv| - 1] == argv[1..]
  {
    XargsIsPerLine(argv, input);
    SplitCount(input, '\n');
  }

  // ---------------------------------------------------------------------
  // the loop over stdin_buf, which is both the read buffer and the word store

  /** A slot of the args array: null, one of xargs' own arguments, or a pointer into stdin_buf. */
  datatype Arg = Null | FromArgv(s: string) | InBuf(off: nat)

  /** The string exec reads through an argument pointer. */
  function ArgString(buf: seq<char>, a: Arg): string
  {
    match a
    case Null => []
    case FromArgv(s) => s
    case InBuf(off) => if off <= |buf| then CStr(buf[off..]) else []
  }

  /** The argument vector exec reads: the strings of args up to its first null. */
  function ExecArgs(buf: seq<char>, args: seq<Arg>): seq<string>
    decreases |args|
  {
    if |args| == 0 || args[0].Null? then [] else [ArgString(buf, args[0])] + ExecArgs(buf, args[1..])
  }

  /** exec reads exactly the pointers before the null. */
  lemma {:induction false} ExecArgsUpToNull(buf: seq<char>, args: seq<Arg>, n: nat)
    requires n < |args| && args[n].Null? && forall k :: 0 <= k < n ==> !args[k].Null?
    ensures |ExecArgs(buf, args)| == n
    ensures forall k :: 0 <= k < n ==> ExecArgs(buf, args)[k] == ArgString(buf, args[k])
  {
    if n > 0 {
      ExecArgsUpToNull(buf, args[1..], n - 1);
    }
  }

  /** The loop's variables: stdin_buf, args, and start_arg, ch and args_idx as indices. */
  datatype State = State(buf: seq<char>, args: seq<Arg>, start: nat, ch: nat, idx: nat)

  /** `a` and `b` agree at every position after `i`: the bytes not yet read. */
  predicate SameAfter(a: seq<char>, b: seq<char>, i: nat)
  {
    |a| == |b| && forall k :: i < k < |a| ==> a[k] == b[k]
  }

  /** The state after one byte, and the command run for it, if any. */
  datatype Step = Step(s: State, out: Option<Command>)

  /**
   One iteration of the inner loop on the byte `b`: a newline ends the last
   word and runs the command, a space ends a word, any other byte is copied
   to where ch points.
   */
  function FeedByte(argv: seq<string>, s: State, b: char): Step
    requires |argv| >= 1 && s.ch < |s.buf|
    requires b == '\n' ==> s.idx + 1 < |s.args|
    requires b == ' ' ==> s.idx < |s.args|
  {
    if b == '\n' then
      var buf := s.buf[s.ch := NUL];
      var args := s.args[s.idx := InBuf(s.start)][s.idx + 1 := Null];
      Step(State(buf, args, 0, 0, |argv| - 1), Some(Command(Program(argv), ExecArgs(buf, args))))
    else if b == ' ' then
      Step(State(s.buf[s.ch := NUL], s.args[s.idx := InBuf(s.start)], s.ch + 1, s.ch + 1, s.idx + 1), None)
    else
      Step(s.(buf := s.buf[s.ch := b], ch := s.ch + 1), None)
  }

  /** The source's iteration, which reads its byte from stdin_buf[i], the buffer it also writes. */
  function Feed(argv: seq<string>, s: State, i: nat): Step
    requires |argv| >= 1 && i < |s.buf| && s.ch < |s.buf|
    requires s.buf[i] == '\n' ==> s.idx + 1 < |s.args|
    requires s.buf[i] == ' ' ==> s.idx < |s.args|
  {
    FeedByte(argv, s, s.buf[i])
  }

  /** `mem` holds each word `ws[k]` at `offs[k]`, followed by a NUL. */
  predicate WordsAt(mem: seq<char>, ws: seq<seq<char>>, offs: seq<nat>)
  {
    && |offs| == |ws|
    && forall k :: 0 <= k < |ws| ==>
         && offs[k] + |ws[k]| < |mem|
         && mem[offs[k]..offs[k] + |ws[k]|] == ws[k]
         && mem[offs[k] + |ws[k]|] == NUL
  }

  /** Words stored below a point survive writes above it, and a new NUL-terminated word joins them. */
  lemma WordsAtPush(mem: seq<char>, ws: seq<seq<char>>, offs: seq<nat>, mem': seq<char>, w: seq<char>, off: nat)
    requires WordsAt(mem, ws, offs) && |mem| <= off && |mem| <= |mem'| && mem'[..|mem|] == mem
    requires off + |w| < |mem'| && mem'[off..off + |w|] == w && mem'[off + |w|] == NUL
    ensures WordsAt(mem', ws + [w], offs + [off])
  {
    forall k | 0 <= k < |ws|
      ensures mem'[offs[k]..offs[k] + |ws[k]|] == ws[k] && mem'[offs[k] + |ws[k]|] == NUL
    {
      assert offs[k] + |ws[k]| < |mem|;
      assert mem'[..|mem|][offs[k]..offs[k] + |ws[k]|] == mem'[offs[k]..offs[k] + |ws[k]|];
      assert mem'[..|mem|][offs[k] + |ws[k]|] == mem'[offs[k] + |ws[k]|];
    }
  }

  /** Each stored word reads back, through its pointer, as its C string. */
  lemma WordsRead(buf: seq<char>, n: nat, ws: seq<seq<char>>, offs: seq<nat>, k: nat)
    requires n <= |buf| && WordsAt(buf[..n], ws, offs) && k < |ws|
    ensures offs[k] <= |buf| && CStr(buf[offs[k]..]) == CStr(ws[k])
  {
    var mem := buf[offs[k]..];
    assert mem[..|ws[k]|] == buf[..n][offs[k]..offs[k] + |ws[k]|];
    CStrOfPrefix(mem, ws[k]);
  }

  /**
   The concrete state `s` holds xargs' own arguments in args, then pointers
   to the finished words `ws`, stored at `offs` in stdin_buf below start_arg,
   and the unfinished word `cur` between start_arg and ch.
   */
  predicate Holds(argv: seq<string>, s: State, ws: seq<seq<char>>, cur: seq<char>, offs: seq<nat>)
  {
    && |argv| >= 1
    && |s.buf| == MAXARG && |s.args| == MAXARG
    && s.start <= s.ch <= MAXARG && s.buf[s.start..s.ch] == cur
    && s.idx == |argv| - 1 + |ws| && s.idx <= MAXARG
    && (forall k :: 0 <= k < |argv| - 1 ==> s.args[k] == FromArgv(argv[k + 1]))
    && |offs| == |ws|
    && (forall k :: 0 <= k < |ws| ==> s.args[|argv| - 1 + k] == InBuf(offs[k]))
    && WordsAt(s.buf[..s.start], ws, offs)
    && ' ' !in cur && '\n' !in cur
  }

  /** A byte other than a space or newline is appended to the unfinished word. */
  lemma FeedOther(argv: seq<string>, s: State, ws: seq<seq<char>>, cur: seq<char>, offs: seq<nat>, b: char)
    requires Holds(argv, s, ws, cur, offs) && s.ch < MAXARG
    requires b != '\n' && b != ' '
    ensures FeedByte(argv, s, b).out.None?
    ensures Holds(argv, FeedByte(argv, s, b).s, ws, cur + [b], offs)
    ensures FeedByte(argv, s, b).s.ch == s.ch + 1 && FeedByte(argv, s, b).s.buf == s.buf[s.ch := b]
  {
    var s' := FeedByte(argv, s, b).s;
    assert s'.buf[s.start..s.ch] == s.buf[s.start..s.ch];
    assert s'.buf[s'.start..s'.ch] == cur + [b];
    assert s'.buf[..s.start] == s.buf[..s.start];
  }

  /** A space finishes the unfinished word: its pointer goes into args and a NUL ends it. */
  lemma FeedSpace(argv: seq<string>, s: State, ws: seq<seq<char>>, cur: seq<char>, offs: seq<nat>)
    requires Holds(argv, s, ws, cur, offs) && s.ch < MAXARG && |argv| + |ws| <= MAXARG
    ensures FeedByte(argv, s, ' ').out.None?
    ensures Holds(argv, FeedByte(argv, s, ' ').s, ws + [cur], [], offs + [s.start])
    ensures FeedByte(argv, s, ' ').s.ch == s.ch + 1 && FeedByte(argv, s, ' ').s.buf == s.buf[s.ch := NUL]
  {
    var s' := FeedByte(argv, s, ' ').s;
    var mem := s'.buf[..s'.start];
    assert mem[..s.start] == s.buf[..s.start];
    assert mem[s.start..s.start + |cur|] == cur;
    WordsAtPush(s.buf[..s.start], ws, offs, mem, cur, s.start);
  }

  /** The words' pointers in args, which come after xargs' own arguments. */
  predicate WordPtrs(argv: seq<string>, args: seq<Arg>, offs: seq<nat>)
  {
    && |argv| >= 1 && |argv| - 1 + |offs| <= |args|
    && (forall k :: 0 <= k < |argv| - 1 ==> args[k] == FromArgv(argv[k + 1]))
    && (forall k :: 0 <= k < |offs| ==> args[|argv| - 1 + k] == InBuf(offs[k]))
  }

  /** The pointer at position `k` of args, seen from either side of the boundary. */
  lemma WordPtrAt(argv: seq<string>, args: seq<Arg>, offs: seq<nat>, k: nat)
    requires WordPtrs(argv, args, offs) && k < |argv| - 1 + |offs|
    ensures k < |argv| - 1 ==> args[k] == FromArgv(argv[k + 1])
    ensures k >= |argv| - 1 ==> args[k] == InBuf(offs[k - (|argv| - 1)])
  {
    if k >= |argv| - 1 {
      var j := k - (|argv| - 1);
      assert args[|argv| - 1 + j] == InBuf(offs[j]);
    }
  }

  /**
   exec, given args holding xargs' own arguments, then pointers to the
   stored words, then a null, reads the arguments followed by the words.
   */
  lemma ArgsRead(argv: seq<string>, buf: seq<char>, args: seq<Arg>, ws: seq<seq<char>>, offs: seq<nat>, m: nat)
    requires WordPtrs(argv, args, offs) && |offs| == |ws| && |argv| - 1 + |ws| < |args|
    requires args[|argv| - 1 + |ws|].Null?
    requires m <= |buf| && WordsAt(buf[..m], ws, offs)
    ensures ExecArgs(buf, args) == argv[1..] + CStrs(ws)
  {
    var n := |argv| - 1 + |ws|;
    forall k | 0 <= k < n ensures !args[k].Null? {
      WordPtrAt(argv, args, offs, k);
    }
    ExecArgsUpToNull(buf, args, n);
    ArgsReadEach(argv, buf, args, ws, offs, m);
  }

  /** Each argument exec reads is the one xargs means. */
  lemma ArgsReadEach(argv: seq<string>, buf: seq<char>, args: seq<Arg>, ws: seq<seq<char>>, offs: seq<nat>, m: nat)
    requires WordPtrs(argv, args, offs) && |offs| == |ws|
    requires m <= |buf| && WordsAt(buf[..m], ws, offs)
    ensures forall k :: 0 <= k < |argv| - 1 + |ws| ==> ArgString(buf, args[k]) == (argv[1..] + CStrs(ws))[k]
  {
    forall k | 0 <= k < |argv| - 1 + |ws|
      ensures ArgString(buf, args[k]) == (argv[1..] + CStrs(ws))[k]
    {
      ArgReadAt(argv, buf, args, ws, offs, m, k);
    }
  }

  /** The string exec reads through position `k` of args. */
  lemma ArgReadAt(argv: seq<string>, buf: seq<char>, args: seq<Arg>, ws: seq<seq<char>>, offs: seq<nat>, m: nat, k: nat)
    requires WordPtrs(argv, args, offs) && |offs| == |ws|
    requires m <= |buf| && WordsAt(buf[..m], ws, offs)
    requires k < |argv| - 1 + |ws|
    ensures ArgString(buf, args[k]) == (argv[1..] + CStrs(ws))[k]
  {
    WordPtrAt(argv, args, offs, k);
    if k >= |argv| - 1 {
      var j := k - (|argv| - 1);
      assert (argv[1..] + CStrs(ws))[k] == CStrs(ws)[j];
      WordsRead(buf, m, ws, offs, j);
    } else {
      assert (argv[1..] + CStrs(ws))[k] == argv[k + 1];
    }
  }

  /** At a newline the last word is stored, NUL-terminated, with its pointer and a null after it. */
  lemma NewlineStores(argv: seq<string>, s: State, ws: seq<seq<char>>, cur: seq<char>, offs: seq<nat>)
    requires Holds(argv, s, ws, cur, offs) && s.ch < MAXARG && |argv| + |ws| < MAXARG
    ensures var buf := s.buf[s.ch := NUL];
            var args := s.args[s.idx := InBuf(s.start)][s.idx + 1 := Null];
            && WordsAt(buf[..s.ch + 1], ws + [cur], offs + [s.start])
            && WordPtrs(argv, args, offs + [s.start])
            && args[|argv| - 1 + |ws + [cur]|].Null?
  {
    var buf := s.buf[s.ch := NUL];
    var args := s.args[s.idx := InBuf(s.start)][s.idx + 1 := Null];
    assert buf[..s.start] == s.buf[..s.start];
    assert buf[..s.ch + 1][s.start..s.start + |cur|] == cur;
    WordsAtPush(s.buf[..s.start], ws, offs, buf[..s.ch + 1], cur, s.start);
  }

  /** After a newline the state holds no words: only xargs' own arguments remain in args. */
  lemma NewlineResets(argv: seq<string>, s: State, ws: seq<seq<char>>, cur: seq<char>, offs: seq<nat>)
    requires Holds(argv, s, ws, cur, offs) && s.ch < MAXARG && |argv| + |ws| < MAXARG
    ensures Holds(argv, State(s.buf[s.ch := NUL], s.args[s.idx := InBuf(s.start)][s.idx + 1 := Null], 0, 0, |argv| - 1), [], [], [])
  {
    var buf := s.buf[s.ch := NUL];
    assert buf[..0] == [] && buf[0..0] == [];
  }

  /** A newline finishes the last word, runs the command for the line, and resets the state. */
  lemma FeedNewline(argv: seq<string>, s: State, ws: seq<seq<char>>, cur: seq<char>, offs: seq<nat>)
    requires Holds(argv, s, ws, cur, offs) && s.ch < MAXARG && |argv| + |ws| < MAXARG
    ensures FeedByte(argv, s, '\n').out == Some(LineCommand(argv, ws + [cur]))
    ensures Holds(argv, FeedByte(argv, s, '\n').s, [], [], [])
    ensures FeedByte(argv, s, '\n').s.ch == 0 && FeedByte(argv, s, '\n').s.buf == s.buf[s.ch := NUL]
  {
    var buf := s.buf[s.ch := NUL];
    var args := s.args[s.idx := InBuf(s.start)][s.idx + 1 := Null];
    assert FeedByte(argv, s, '\n') == Step(State(buf, args, 0, 0, |argv| - 1), Some(Command(Program(argv), ExecArgs(buf, args))));
    NewlineStores(argv, s, ws, cur, offs);
    ArgsRead(argv, buf, args, ws + [cur], offs + [s.start], s.ch + 1);
    NewlineResets(argv, s, ws, cur, offs);
  }

  /**
   Every line fits in args: xargs' own arguments, a pointer per word and,
   at the newline, the null after them (`ntoks` words of the current line
   are already stored). A longer line would write past the end of args.
   */
  predicate Fits(argc: nat, input: seq<char>, ntoks: nat)
    decreases |input|
  {
    |input| == 0 ||
    if input[0] == '\n' then argc + ntoks < MAXARG && Fits(argc, input[1..], 0)
    else if input[0] == ' ' then argc + ntoks <= MAXARG && Fits(argc, input[1..], ntoks + 1)
    else Fits(argc, input[1..], ntoks)
  }

  /** The commands run by one step: none, or the one it ran. */
  function Ran(o: Option<Command>): seq<Command>
  {
    if o.Some? then [o.value] else []
  }

  /**
   What one iteration of the loop keeps: from `s` holding the words `ws`,
   `cur` with input `[s.buf[i]] + rest` still to come, the next state holds
   `ws'`, `cur'` with `rest` to come, and the commands run so far plus those
   still to run stay the same.
   */
  predicate Stepped(argv: seq<string>, s: State, i: nat, ws: seq<seq<char>>, cur: seq<char>, rest: seq<char>,
                    ws': seq<seq<char>>, cur': seq<char>, offs': seq<nat>)
    requires |argv| >= 1 && i < |s.buf| && s.ch < |s.buf|
    requires s.buf[i] == '\n' ==> s.idx + 1 < |s.args|
    requires s.buf[i] == ' ' ==> s.idx < |s.args|
  {
    var r := Feed(argv, s, i);
    && Holds(argv, r.s, ws', cur', offs')
    && r.s.ch <= i + 1 && SameAfter(r.s.buf, s.buf, i)
    && Fits(|argv|, rest, |ws'|)
    && Commands(argv, [s.buf[i]] + rest, ws, cur) == Ran(r.out) + Commands(argv, rest, ws', cur')
    && (s.buf[i] == '\n' ==> ws' == [] && cur' == [] && r.s.ch == 0)
  }

  /** One byte of input, for the tokeniser and for the bound on the line. */
  lemma TokenStep(argv: seq<string>, b: char, rest: seq<char>, ws: seq<seq<char>>, cur: seq<char>)
    requires |argv| >= 1 && Fits(|argv|, [b] + rest, |ws|)
    ensures b == '\n' ==>
      && |argv| + |ws| < MAXARG && Fits(|argv|, rest, 0)
      && Commands(argv, [b] + rest, ws, cur) == [LineCommand(argv, ws + [cur])] + Commands(argv, rest, [], [])
    ensures b == ' ' ==>
      && |argv| + |ws| <= MAXARG && Fits(|argv|, rest, |ws + [cur]|)
      && Commands(argv, [b] + rest, ws, cur) == Commands(argv, rest, ws + [cur], [])
    ensures b != '\n' && b != ' ' ==>
      && Fits(|argv|, rest, |ws|)
      && Commands(argv, [b] + rest, ws, cur) == Commands(argv, rest, ws, cur + [b])
  {
    var input := [b] + rest;
    assert input[0] == b && input[1..] == rest;
  }

  /** The loop step on a newline. */
  lemma StepNewline(argv: seq<string>, s: State, ws: seq<seq<char>>, cur: seq<char>, offs: seq<nat>, i: nat, rest: seq<char>)
    requires Holds(argv, s, ws, cur, offs) && s.ch <= i < MAXARG
    requires Fits(|argv|, [s.buf[i]] + rest, |ws|) && s.buf[i] == '\n'
    ensures s.idx + 1 < |s.args|
    ensures Stepped(argv, s, i, ws, cur, rest, [], [], [])
  {
    TokenStep(argv, s.buf[i], rest, ws, cur);
    FeedNewline(argv, s, ws, cur, offs);
  }

  /** The loop step on a space. */
  lemma StepSpace(argv: seq<string>, s: State, ws: seq<seq<char>>, cur: seq<char>, offs: seq<nat>, i: nat, rest: seq<char>)
    requires Holds(argv, s, ws, cur, offs) && s.ch <= i < MAXARG
    requires Fits(|argv|, [s.buf[i]] + rest, |ws|) && s.buf[i] == ' '
    ensures s.idx < |s.args|
    ensures Stepped(argv, s, i, ws, cur, rest, ws + [cur], [], offs + [s.start])
  {
    TokenStep(argv, s.buf[i], rest, ws, cur);
    FeedSpace(argv, s, ws, cur, offs);
  }

  /** The loop step on any other byte. */
  lemma StepOther(argv: seq<string>, s: State, ws: seq<seq<char>>, cur: seq<char>, offs: seq<nat>, i: nat, rest: seq<char>)
    requires Holds(argv, s, ws, cur, offs) && s.ch <= i < MAXARG
    requires Fits(|argv|, [s.buf[i]] + rest, |ws|) && s.buf[i] != '\n' && s.buf[i] != ' '
    ensures Stepped(argv, s, i, ws, cur, rest, ws, cur + [s.buf[i]], offs)
  {
    TokenStep(argv, s.buf[i], rest, ws, cur);
    FeedOther(argv, s, ws, cur, offs, s.buf[i]);
  }

  /** One iteration of the loop, on whichever byte it reads. */
  lemma LoopStep(argv: seq<string>, s: State, ws: seq<seq<char>>, cur: seq<char>, offs: seq<nat>, i: nat, rest: seq<char>)
      returns (ws': seq<seq<char>>, cur': seq<char>, offs': seq<nat>)
    requires Holds(argv, s, ws, cur, offs) && s.ch <= i < MAXARG
    requires Fits(|argv|, [s.buf[i]] + rest, |ws|)
    ensures s.buf[i] == '\n' ==> s.idx + 1 < |s.args|
    ensures s.buf[i] == ' ' ==> s.idx < |s.args|
    ensures Stepped(argv, s, i, ws, cur, rest, ws', cur', offs')
  {
    if s.buf[i] == '\n' {
      StepNewline(argv, s, ws, cur, offs, i, rest);
      ws', cur', offs' := [], [], [];
    } else if s.buf[i] == ' ' {
      StepSpace(argv, s, ws, cur, offs, i, rest);
      ws', cur', offs' := ws + [cur], [], offs + [s.start];
    } else {
      StepOther(argv, s, ws, cur, offs, i, rest);
      ws', cur', offs' := ws, cur + [s.buf[i]], offs;
    }
  }

  /**
   The loop over the read `chunk` after `i` of its bytes: `s` holds the
   words `ws` and `cur` of the current line, the bytes not yet read are
   still in stdin_buf, and the commands run so far, `out`, followed by
   those the rest of the input will run, are the commands for the input.
   */
  predicate Reading(argv: seq<string>, chunk: seq<char>, later: seq<char>, i: nat,
                    s: State, out: seq<Command>, ws: seq<seq<char>>, cur: seq<char>, offs: seq<nat>)
  {
    && |argv| >= 1 && i <= |chunk| <= MAXARG
    && Holds(argv, s, ws, cur, offs) && s.ch <= i
    && (forall k :: i <= k < |chunk| ==> s.buf[k] == chunk[k])
    && Commands(argv, chunk + later, [], []) == out + Commands(argv, chunk[i..] + later, ws, cur)
    && Fits(|argv|, chunk[i..] + later, |ws|)
    && (i > 0 && chunk[i - 1] == '\n' ==> ws == [] && cur == [] && s.ch == 0)
  }

  /** The read puts `chunk` at the front of stdin_buf, and the loop starts on it. */
  lemma ReadingStart(argv: seq<string>, s0: State, chunk: seq<char>, later: seq<char>)
    requires Holds(argv, s0, [], [], []) && s0.ch == 0 && |chunk| <= MAXARG
    requires Fits(|argv|, chunk + later, 0)
    ensures Reading(argv, chunk, later, 0, s0.(buf := chunk + s0.buf[|chunk|..]), [], [], [], [])
  {
    var s := s0.(buf := chunk + s0.buf[|chunk|..]);
    assert s.buf[..0] == [] && s.buf[0..0] == [];
    assert chunk[0..] == chunk;
  }

  /** One iteration of the loop over the read keeps its meaning. */
  lemma ReadingStep(argv: seq<string>, chunk: seq<char>, later: seq<char>, i: nat,
                    s: State, out: seq<Command>, ws: seq<seq<char>>, cur: seq<char>, offs: seq<nat>)
      returns (ws': seq<seq<char>>, cur': seq<char>, offs': seq<nat>)
    requires Reading(argv, chunk, later, i, s, out, ws, cur, offs) && i < |chunk|
    ensures i < |s.buf| && s.ch < |s.buf| && s.buf[i] == chunk[i]
    ensures chunk[i] == '\n' ==> s.idx + 1 < |s.args|
    ensures chunk[i] == ' ' ==> s.idx < |s.args|
    ensures Reading(argv, chunk, later, i + 1, Feed(argv, s, i).s, out + Ran(Feed(argv, s, i).out), ws', cur', offs')
  {
    var n := |chunk|;
    var rest := chunk[i + 1..] + later;
    assert chunk[i..] + later == [s.buf[i]] + rest;
    ws', cur', offs' := LoopStep(argv, s, ws, cur, offs, i, rest);
    var r := Feed(argv, s, i);
  }

  /**
   The inner loop over one successful read `chunk`, which starts when the
   state is reset (the previous read ended with a newline, or this is the
   first read): the read overwrites the front of stdin_buf, and the words of
   each line are stored back into that same buffer, behind the byte being
   read. `out` are the commands run, and `later` the input still to come.
   */
  method ReadChunk(argv: seq<string>, s0: State, chunk: seq<char>, ghost later: seq<char>)
      returns (s: State, out: seq<Command>, ghost ws: seq<seq<char>>, ghost cur: seq<char>, ghost offs: seq<nat>)
    requires 0 < |chunk| <= MAXARG
    requires Holds(argv, s0, [], [], []) && s0.ch == 0
    requires Fits(|argv|, chunk + later, 0)
    ensures Holds(argv, s, ws, cur, offs)
    ensures Commands(argv, chunk + later, [], []) == out + Commands(argv, later, ws, cur)
    ensures Fits(|argv|, later, |ws|)
    ensures chunk[|chunk| - 1] == '\n' ==> ws == [] && cur == [] && s.ch == 0
  {
    var n := |chunk|;
    s := s0.(buf := chunk + s0.buf[n..]);
    ReadingStart(argv, s0, chunk, later);
    ws, cur, offs := [], [], [];
    out := [];
    var i := 0;
    while i < n
      invariant Reading(argv, chunk, later, i, s, out, ws, cur, offs)
    {
      ghost var ws', cur', offs' := ReadingStep(argv, chunk, later, i, s, out, ws, cur, offs);
      var step := Feed(argv, s, i);
      s := step.s;
      out := out + Ran(step.out);
      ws, cur, offs := ws', cur', offs';
      i := i + 1;
    }
    assert chunk[n..] + later == later;
  }

  /**
   xargs' input loop over the successful reads `chunks`, each of which but
   the last ends with a newline: it runs exactly the commands of the
   byte-at-a-time tokeniser over the whole input.
   */
  method RunXargs(argv: seq<string>, chunks: seq<seq<char>>) returns (cmds: seq<Command>)
    requires 1 <= |argv| <= MAXARG + 1
    requires forall c :: 0 <= c < |chunks| ==> 0 < |chunks[c]| <= MAXARG
    requires forall c :: 0 <= c < |chunks| - 1 ==> chunks[c][|chunks[c]| - 1] == '\n'
    requires Fits(|argv|, Concat(chunks), 0)
    ensures cmds == Xargs(argv, Concat(chunks))
  {
    var args := CopyArgs(argv);
    var s := State(seq(MAXARG, _ => NUL), args, 0, 0, |argv| - 1);
    InitialHolds(argv, s);
    ghost var ws: seq<seq<char>> := [];
    ghost var cur: seq<char> := [];
    ghost var offs: seq<nat> := [];
    cmds := [];
    var c := 0;
    assert chunks[0..] == chunks;
    while c < |chunks|
      invariant 0 <= c <= |chunks|
      invariant Holds(argv, s, ws, cur, offs)
      invariant c < |chunks| ==> ws == [] && cur == [] && s.ch == 0
      invariant cmds + Commands(argv, Concat(chunks[c..]), ws, cur) == Xargs(argv, Concat(chunks))
      invariant Fits(|argv|, Concat(chunks[c..]), |ws|)
    {
      ghost var later := Concat(chunks[c + 1..]);
      ConcatFrom(chunks, c);
      var out;
      s, out, ws, cur, offs := ReadChunk(argv, s, chunks[c], later);
      assert (cmds + out) + Commands(argv, later, ws, cur) == cmds + (out + Commands(argv, later, ws, cur));
      cmds := cmds + out;
      c := c + 1;
    }
    assert chunks[c..] == [];
  }

  /** The loop that copies xargs' own arguments, less its name, to the front of args. */
  method CopyArgs(argv: seq<string>) returns (args: seq<Arg>)
    requires 1 <= |argv| <= MAXARG + 1
    ensures |args| == MAXARG
    ensures forall k :: 0 <= k < |argv| - 1 ==> args[k] == FromArgv(argv[k + 1])
  {
    args := seq(MAXARG, _ => Null);
    var a := 1;
    while a < |argv|
      invariant 1 <= a <= |argv| && |args| == MAXARG
      invariant forall k :: 0 <= k < a - 1 ==> args[k] == FromArgv(argv[k + 1])
    {
      args := args[a - 1 := FromArgv(argv[a])];
      a := a + 1;
    }
  }

  /** Before the first read, no word is stored. */
  lemma InitialHolds(argv: seq<string>, s: State)
    requires 1 <= |argv| <= MAXARG + 1 && |s.buf| == MAXARG && |s.args| == MAXARG
    requires s.start == 0 && s.ch == 0 && s.idx == |argv| - 1
    requires forall k :: 0 <= k < |argv| - 1 ==> s.args[k] == FromArgv(argv[k + 1])
    ensures Holds(argv, s, [], [], [])
  {
    assert s.buf[..0] == [] && s.buf[0..0] == [];
  }

  /** The input from chunk `c` on is that chunk followed by the rest. */
  lemma ConcatFrom(chunks: seq<seq<char>>, c: nat)
    requires c < |chunks|
    ensures Concat(chunks[c..]) == chunks[c] + Concat(chunks[c + 1..])
  {
    assert chunks[c..][1..] == chunks[c + 1..];
  }

  // ---------------------------------------------------------------------
  // a line that spans two reads

  /** args before the first read: xargs' own arguments, less its name, then nulls. */
  function InitialArgs(argv: seq<string>): seq<Arg>
  {
    seq(MAXARG, k requires 0 <= k < MAXARG => if k < |argv| - 1 then FromArgv(argv[k + 1]) else Null)
  }

  /** The loop's variables before the first read. */
  function Start(argv: seq<string>): State
    requires |argv| >= 1
  {
    State(seq(MAXARG, _ => NUL), InitialArgs(argv), 0, 0, |argv| - 1)
  }

  /**
   The source's inner loop as written, from byte `i` of a read of `n` bytes:
   the state after it and the commands it runs, or None where it would write
   outside stdin_buf or args.
   */
  function LoopAsWritten(argv: seq<string>, s: State, n: nat, i: nat): Option<(State, seq<Command>)>
    requires |argv| >= 1
    decreases n - i
  {
    if i >= n then Some((s, []))
    else if i < |s.buf| && s.ch < |s.buf| && (s.buf[i] == '\n' ==> s.idx + 1 < |s.args|)
            && (s.buf[i] == ' ' ==> s.idx < |s.args|) then
      var step := Feed(argv, s, i);
      match LoopAsWritten(argv, step.s, n, i + 1)
      case None => None
      case Some(r) => Some((r.0, Ran(step.out) + r.1))
    else None
  }

  /**
   The source's outer loop as written over the reads `chunks`: each read
   refills the front of stdin_buf, while start_arg, ch and args_idx carry
   over from the read before.
   */
  function RunAsWritten(argv: seq<string>, s: State, chunks: seq<seq<char>>): Option<seq<Command>>
    requires |argv| >= 1
    decreases |chunks|
  {
    if |chunks| == 0 then Some([])
    else if |chunks[0]| > |s.buf| then None
    else match LoopAsWritten(argv, s.(buf := chunks[0] + s.buf[|chunks[0]|..]), |chunks[0]|, 0)
      case None => None
      case Some(r) =>
        match RunAsWritten(argv, r.0, chunks[1..])
        case None => None
        case Some(cs) => Some(r.1 + cs)
  }

  /** One byte of the loop as written, when its guard holds and the rest of the read completes. */
  lemma AsWrittenStep(argv: seq<string>, s: State, n: nat, i: nat, t: State, o: Option<Command>, r: (State, seq<Command>))
    requires |argv| >= 1 && i < n && i < |s.buf| && s.ch < |s.buf|
    requires (s.buf[i] == '\n' ==> s.idx + 1 < |s.args|) && (s.buf[i] == ' ' ==> s.idx < |s.args|)
    requires Feed(argv, s, i) == Step(t, o) && LoopAsWritten(argv, t, n, i + 1) == Some(r)
    ensures LoopAsWritten(argv, s, n, i) == Some((r.0, Ran(o) + r.1))
  {
  }

  /** A read of two ordinary bytes, at the start of a line, stores them where they were read. */
  lemma TwoBytesInPlace(argv: seq<string>, s: State)
    requires |argv| >= 1 && |s.buf| == MAXARG && s.ch == 0
    requires s.buf[0] !in "\n " && s.buf[1] !in "\n "
    ensures LoopAsWritten(argv, s, 2, 0) == Some((s.(ch := 2), []))
  {
    assert s.buf[0 := s.buf[0]] == s.buf;
    var t1 := s.(ch := 1);
    assert Feed(argv, s, 0) == Step(t1, None);
    assert t1.buf[1 := t1.buf[1]] == t1.buf;
    assert Feed(argv, t1, 1) == Step(s.(ch := 2), None);
    assert LoopAsWritten(argv, s.(ch := 2), 2, 2) == Some((s.(ch := 2), []));
    AsWrittenStep(argv, t1, 2, 1, s.(ch := 2), None, (s.(ch := 2), []));
    assert Ran(None) + [] == [];
    AsWrittenStep(argv, s, 2, 0, t1, None, (s.(ch := 2), []));
    assert Ran(None) + [] == [];
  }

  /** A read of a byte and a newline with two bytes of the line already stored: the byte goes to position 2. */
  lemma ByteThenNewline(argv: seq<string>, s: State)
    requires |argv| >= 1 && |s.buf| == MAXARG && |s.args| == MAXARG && s.ch == 2 && s.idx + 1 < MAXARG
    requires s.buf[0] !in "\n " && s.buf[1] == '\n'
    ensures var u1 := s.(buf := s.buf[2 := s.buf[0]], ch := 3);
            LoopAsWritten(argv, s, 2, 0) == Some((Feed(argv, u1, 1).s, Ran(Feed(argv, u1, 1).out)))
  {
    var u1 := s.(buf := s.buf[2 := s.buf[0]], ch := 3);
    assert Feed(argv, s, 0) == Step(u1, None);
    assert u1.buf[1] == '\n';
    var last := Feed(argv, u1, 1);
    assert LoopAsWritten(argv, last.s, 2, 2) == Some((last.s, []));
    AsWrittenStep(argv, u1, 2, 1, last.s, last.out, (last.s, []));
    assert Ran(last.out) + [] == Ran(last.out);
    AsWrittenStep(argv, s, 2, 0, u1, None, (last.s, Ran(last.out)));
    assert [] + Ran(last.out) == Ran(last.out);
  }

  /**
   `echo` piping "abc\n" into `xargs echo` in two reads, "ab" and "c\n": the
   second read overwrites "ab" in stdin_buf, the 'c' is stored after it, and
   the command run is `echo c\nc` instead of the `echo abc` the tokeniser
   gives for the same bytes.
   */
  lemma SpanningLineCorrupted()
    ensures RunAsWritten(["xargs", "echo"], Start(["xargs", "echo"]), ["ab", "c\n"])
         == Some([Command(Some("echo"), ["echo", "c\nc"])])
    ensures Xargs(["xargs", "echo"], "ab" + "c\n") == [Command(Some("echo"), ["echo", "abc"])]
  {
    var argv := ["xargs", "echo"];
    var s0 := Start(argv);
    var s1 := s0.(buf := "ab" + s0.buf[2..]);
    assert |s0.buf| == MAXARG && s1.buf[0] == 'a' && s1.buf[1] == 'b';
    TwoBytesInPlace(argv, s1);
    var t2 := s1.(ch := 2);
    SecondReadCorrupts(argv, t2);
    var cmds := [Command(Some("echo"), ["echo", "c\nc"])];
    assert ["ab", "c\n"][1..] == ["c\n"];
    assert RunAsWritten(argv, s0, ["ab", "c\n"]) == Some([] + cmds);
    assert [] + cmds == cmds;
    SpanningLineTokenised();
  }

  /** The second read, "c\n", after "ab" was stored at the start of stdin_buf. */
  lemma SecondReadCorrupts(argv: seq<string>, t2: State)
    requires argv == ["xargs", "echo"] && t2.ch == 2 && t2.start == 0 && t2.idx == 1
    requires |t2.buf| == MAXARG && t2.buf[0] == 'a'
    requires t2.args == InitialArgs(argv)
    ensures RunAsWritten(argv, t2, ["c\n"]) == Some([Command(Some("echo"), ["echo", "c\nc"])])
  {
    var u0 := t2.(buf := "c\n" + t2.buf[2..]);
    assert |u0.buf| == MAXARG;
    ByteThenNewline(argv, u0);
    var u1 := u0.(buf := u0.buf[2 := 'c'], ch := 3);
    var last := Feed(argv, u1, 1);
    assert RunAsWritten(argv, last.s, []) == Some([]);
    assert ["c\n"][1..] == [];
    assert LoopAsWritten(argv, u0, 2, 0) == Some((last.s, Ran(last.out)));
    assert RunAsWritten(argv, t2, ["c\n"]) == Some(Ran(last.out) + []);
    assert u1.buf[..3] == "c\nc";
    assert u1.args[0] == FromArgv("echo");
    assert Program(argv) == Some("echo");
    // exec reads "echo" and the C string at the start of stdin_buf
    var buf := u1.buf[3 := NUL];
    var args := u1.args[1 := InBuf(0)][2 := Null];
    assert last.out == Some(Command(Some("echo"), ExecArgs(buf, args)));
    ExecCorrupted(buf, args);
    assert Ran(last.out) + [] == [Command(Some("echo"), ["echo", "c\nc"])];
  }

  /** The tokeniser reads the line "abc\n" whole. */
  lemma SpanningLineTokenised()
    ensures Xargs(["xargs", "echo"], "ab" + "c\n") == [Command(Some("echo"), ["echo", "abc"])]
  {
    var argv := ["xargs", "echo"];
    var input := "ab" + "c\n";
    assert input[1..] == "bc\n" && input[2..] == "c\n" && input[3..] == "\n" && input[4..] == [];
    assert Commands(argv, input[4..], [], []) == [];
    assert [] + ["abc"] == ["abc"] && "ab" + ['c'] == "abc" && "a" + ['b'] == "ab" && [] + ['a'] == "a";
    assert input[2] == 'c' && input[1] == 'b' && input[0] == 'a';
    assert Commands(argv, input[3..], [], "abc") == [LineCommand(argv, [] + ["abc"])];
    assert Commands(argv, input[2..], [], "ab") == [LineCommand(argv, ["abc"])];
    assert Commands(argv, input[1..], [], "a") == [LineCommand(argv, ["abc"])];
    assert Commands(argv, input, [], []) == [LineCommand(argv, ["abc"])];
    CStrOfNulFree("abc");
    assert CStrs(["abc"]) == ["abc"];
    assert argv[1..] + ["abc"] == ["echo", "abc"];
  }

  /** The arguments exec reads after the second read. */
  lemma ExecCorrupted(buf: seq<char>, args: seq<Arg>)
    requires |buf| >= 4 && buf[..4] == "c\nc" + [NUL]
    requires |args| >= 3 && args[0] == FromArgv("echo") && args[1] == InBuf(0) && args[2] == Null
    ensures ExecArgs(buf, args) == ["echo", "c\nc"]
  {
    assert buf[..3] == "c\nc" && buf[3] == NUL;
    CStrOfTerminated(buf, "c\nc");
    assert buf[0..] == buf;
    ExecArgsUpToNull(buf, args, 2);
  }

  /**
   Every line, from store position `ch` on, fits in a word store of MAXARG
   bytes together with the NUL that ends its last word.
   */
  predicate Room(input: seq<char>, ch: nat)
    decreases |input|
  {
    |input| == 0 || (ch < MAXARG && Room(input[1..], if input[0] == '\n' then 0 else ch + 1))
  }

  /** One iteration of the corrected loop keeps its meaning. */
  lemma FixedStep(argv: seq<string>, s: State, ws: seq<seq<char>>, cur: seq<char>, offs: seq<nat>, b: char, rest: seq<char>)
      returns (ws': seq<seq<char>>, cur': seq<char>, offs': seq<nat>)
    requires Holds(argv, s, ws, cur, offs)
    requires Fits(|argv|, [b] + rest, |ws|) && Room([b] + rest, s.ch)
    ensures s.ch < MAXARG
    ensures b == '\n' ==> s.idx + 1 < |s.args|
    ensures b == ' ' ==> s.idx < |s.args|
    ensures Holds(argv, FeedByte(argv, s, b).s, ws', cur', offs')
    ensures Fits(|argv|, rest, |ws'|) && Room(rest, FeedByte(argv, s, b).s.ch)
    ensures Commands(argv, [b] + rest, ws, cur) == Ran(FeedByte(argv, s, b).out) + Commands(argv, rest, ws', cur')
  {
    var input := [b] + rest;
    assert input[0] == b && input[1..] == rest;
    TokenStep(argv, b, rest, ws, cur);
    if b == '\n' {
      FeedNewline(argv, s, ws, cur, offs);
      ws', cur', offs' := [], [], [];
    } else if b == ' ' {
      FeedSpace(argv, s, ws, cur, offs);
      ws', cur', offs' := ws + [cur], [], offs + [s.start];
    } else {
      FeedOther(argv, s, ws, cur, offs, b);
      ws', cur', offs' := ws, cur + [b], offs;
    }
  }

  /**
   What the corrected inner loop keeps after `i` bytes of the read `chunk`
   (with `later` still to come): the read sits in `rbuf`, the state holds
   the words `ws`, `cur`, and the commands run so far plus those still to
   run are those of the input from where the read began.
   */
  predicate FixedReading(argv: seq<string>, chunk: seq<char>, later: seq<char>, i: nat, rbuf: seq<char>,
                         s: State, out: seq<Command>, ws: seq<seq<char>>, cur: seq<char>, offs: seq<nat>,
                         ws0: seq<seq<char>>, cur0: seq<char>)
  {
    && |argv| >= 1 && i <= |chunk| <= |rbuf| && rbuf[..|chunk|] == chunk
    && Holds(argv, s, ws, cur, offs)
    && Fits(|argv|, chunk[i..] + later, |ws|) && Room(chunk[i..] + later, s.ch)
    && Commands(argv, chunk + later, ws0, cur0) == out + Commands(argv, chunk[i..] + later, ws, cur)
  }

  /** One iteration of the corrected inner loop keeps FixedReading. */
  lemma FixedReadingStep(argv: seq<string>, chunk: seq<char>, later: seq<char>, i: nat, rbuf: seq<char>,
                         s: State, out: seq<Command>, ws: seq<seq<char>>, cur: seq<char>, offs: seq<nat>,
                         ws0: seq<seq<char>>, cur0: seq<char>)
      returns (ws': seq<seq<char>>, cur': seq<char>, offs': seq<nat>)
    requires FixedReading(argv, chunk, later, i, rbuf, s, out, ws, cur, offs, ws0, cur0) && i < |chunk|
    ensures s.ch < |s.buf|
    ensures rbuf[i] == '\n' ==> s.idx + 1 < |s.args|
    ensures rbuf[i] == ' ' ==> s.idx < |s.args|
    ensures var step := FeedByte(argv, s, rbuf[i]);
            FixedReading(argv, chunk, later, i + 1, rbuf, step.s, out + Ran(step.out), ws', cur', offs', ws0, cur0)
  {
    var b := rbuf[i];
    assert b == rbuf[..|chunk|][i] == chunk[i];
    var rest := chunk[i + 1..] + later;
    assert chunk[i..] + later == [b] + rest;
    ws', cur', offs' := FixedStep(argv, s, ws, cur, offs, b, rest);
    var step := FeedByte(argv, s, b);
    assert (out + Ran(step.out)) + Commands(argv, rest, ws', cur') == out + (Ran(step.out) + Commands(argv, rest, ws', cur'));
  }

  /**
   The corrected inner loop over one read: the read fills stdin_buf (`rbuf`)
   and the words are stored in a separate line buffer (`s.buf`), so a line
   carries over from one read to the next.
   */
  method ReadChunkFixed(argv: seq<string>, s0: State, rbuf0: seq<char>, chunk: seq<char>, ghost later: seq<char>,
                        ghost ws0: seq<seq<char>>, ghost cur0: seq<char>, ghost offs0: seq<nat>)
      returns (s: State, rbuf: seq<char>, out: seq<Command>, ghost ws: seq<seq<char>>, ghost cur: seq<char>, ghost offs: seq<nat>)
    requires |rbuf0| == MAXARG && |chunk| <= MAXARG
    requires Holds(argv, s0, ws0, cur0, offs0)
    requires Fits(|argv|, chunk + later, |ws0|) && Room(chunk + later, s0.ch)
    ensures Holds(argv, s, ws, cur, offs) && |rbuf| == MAXARG
    ensures Commands(argv, chunk + later, ws0, cur0) == out + Commands(argv, later, ws, cur)
    ensures Fits(|argv|, later, |ws|) && Room(later, s.ch)
  {
    rbuf := chunk + rbuf0[|chunk|..];
    s, out, ws, cur, offs := s0, [], ws0, cur0, offs0;
    var i := 0;
    assert chunk[0..] == chunk && rbuf[..|chunk|] == chunk;
    while i < |chunk|
      invariant |rbuf| == MAXARG
      invariant FixedReading(argv, chunk, later, i, rbuf, s, out, ws, cur, offs, ws0, cur0)
    {
      ghost var ws', cur', offs' := FixedReadingStep(argv, chunk, later, i, rbuf, s, out, ws, cur, offs, ws0, cur0);
      var step := FeedByte(argv, s, rbuf[i]);
      s := step.s;
      out := out + Ran(step.out);
      ws, cur, offs := ws', cur', offs';
      i := i + 1;
    }
    assert chunk[i..] + later == later;
  }

  /**
   xargs with the words kept in their own buffer: for any division of the
   input into reads it runs exactly the commands of the byte-at-a-time
   tokeniser over the whole input.
   */
  method RunXargsFixed(argv: seq<string>, chunks: seq<seq<char>>) returns (cmds: seq<Command>)
    requires 1 <= |argv| <= MAXARG + 1
    requires forall c :: 0 <= c < |chunks| ==> 0 < |chunks[c]| <= MAXARG
    requires Fits(|argv|, Concat(chunks), 0) && Room(Concat(chunks), 0)
    ensures cmds == Xargs(argv, Concat(chunks))
  {
    var args := CopyArgs(argv);
    var s := State(seq(MAXARG, _ => NUL), args, 0, 0, |argv| - 1);
    var rbuf: seq<char> := seq(MAXARG, _ => NUL);
    InitialHolds(argv, s);
    ghost var ws: seq<seq<char>> := [];
    ghost var cur: seq<char> := [];
    ghost var offs: seq<nat> := [];
    cmds := [];
    var c := 0;
    assert chunks[0..] == chunks;
    while c < |chunks|
      invariant 0 <= c <= |chunks| && |rbuf| == MAXARG
      invariant Holds(argv, s, ws, cur, offs)
      invariant cmds + Commands(argv, Concat(chunks[c..]), ws, cur) == Xargs(argv, Concat(chunks))
      invariant Fits(|argv|, Concat(chunks[c..]), |ws|) && Room(Concat(chunks[c..]), s.ch)
    {
      ghost var later := Concat(chunks[c + 1..]);
      ConcatFrom(chunks, c);
      var out;
      s, rbuf, out, ws, cur, offs := ReadChunkFixed(argv, s, rbuf, chunks[c], later, ws, cur, offs);
      assert (cmds + out) + Commands(argv, later, ws, cur) == cmds + (out + Commands(argv, later, ws, cur));
      cmds := cmds + out;
      c := c + 1;
    }
    assert chunks[c..] == [];
  }
}
