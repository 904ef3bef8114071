/** The loops of bin/main.c, bin/commands.c and bin/utils.c that quote, size and tokenize,
    proved against Shell. */
module ShellCode {
  import opened Shell

  /** `*ptr` for a pointer into the C string `s`. */
  function Deref(s: string, p: nat): char
    requires p <= |s|
  {
    if p < |s| then s[p] else NUL
  }

  method SkipSpaces(sp: Spaces, s: string, p: nat) returns (q: nat)
    requires CString(s) && p <= |s|
    ensures p <= q <= |s| && Deref(s, q) !in sp
    ensures forall i :: p <= i < q ==> s[i] in sp
  {
    q := p;
    while Deref(s, q) in sp
      invariant p <= q <= |s|
      invariant forall i :: p <= i < q ==> s[i] in sp
      decreases |s| - q
    {
      q := q + 1;
    }
  }

  lemma StripPrefix(q: char, s: string, i: nat)
    requires i < |s|
    ensures Quote(q, s[..i + 1]) == Next(Quote(q, s[..i]), s[i])
    ensures Strip(q, s[..i + 1]) == Strip(q, s[..i]) + if Kept(Quote(q, s[..i]), s[i]) then [s[i]] else []
  {
    StripSnoc(q, s[..i], s[i]);
    assert s[..i + 1] == s[..i] + [s[i]];
  }

  /** `text` is what the copying loop writes, in order; `overrun` says that it wrote past the
      end of the buffer, where C leaves the outcome undefined. */
  method Unquote(s: string, n: nat) returns (result: array<char>, text: string, overrun: bool)
    requires n <= |s|
    ensures fresh(result) && result.Length == |Strip(NUL, s[..n])| + 1
    ensures text == Unquoted(s[..n])
    ensures overrun <==> Overruns(s[..n])
    ensures !overrun ==> result[..|text| + 1] == text + [NUL]
  {
    var length := 0;
    var quote := NUL;
    for i := 0 to n
      invariant quote == Quote(NUL, s[..i]) && length == |Strip(NUL, s[..i])|
    {
      StripPrefix(NUL, s, i);
      if s[i] == DQ || s[i] == SQ {
        if quote != NUL {
          if quote == s[i] {
            quote := NUL;
          } else {
            length := length + 1;
          }
        } else {
          quote := s[i];
        }
      } else {
        length := length + 1;
      }
    }
    result := new char[length + 1];
    ghost var left := quote;
    text, overrun := [], false;
    length := 0;
    for i := 0 to n
      invariant quote == Quote(left, s[..i]) && text == Strip(left, s[..i])
      invariant length == |text| && (overrun <==> length > result.Length)
      invariant !overrun ==> result[..length] == text
    {
      StripPrefix(left, s, i);
      if s[i] == DQ || s[i] == SQ {
        if quote != NUL {
          if quote == s[i] {
            quote := NUL;
          } else {
            length, text, overrun := Write(result, length, text, overrun, s[i]);
          }
        } else {
          quote := s[i];
        }
      } else {
        length, text, overrun := Write(result, length, text, overrun, s[i]);
      }
    }
    if length < result.Length {
      result[length] := NUL;
    } else {
      overrun := true;
    }
  }

  /** `result[length++] = c` */
  method Write(result: array<char>, length: nat, text: string, overrun: bool, c: char)
    returns (length': nat, text': string, overrun': bool)
    requires length == |text| && (overrun <==> length > result.Length)
    requires !overrun ==> result[..length] == text
    modifies result
    ensures length' == length + 1 && text' == text + [c]
    ensures overrun' <==> length' > result.Length
    ensures !overrun' ==> result[..length'] == text'
  {
    overrun' := overrun;
    if length < result.Length {
      result[length] := c;
    } else {
      overrun' := true;
    }
    length', text' := length + 1, text + [c];
  }

  method ShellStrNeedsEscape(sp: Spaces, s: string) returns (r: bool)
    requires CString(s)
    ensures r <==> NeedsEscape(sp, s)
  {
    var p := 0;
    while Deref(s, p) != NUL && Deref(s, p) !in sp
      invariant p <= |s|
      invariant forall i :: 0 <= i < p ==> s[i] !in sp
      decreases |s| - p
    {
      p := p + 1;
    }
    r := Deref(s, p) != NUL;
    assert r ==> s[p] in s;
  }

  // ---------------------------------------------------------------- task-exec

  /** The size the first loop of exec_task_exec adds up. */
  function SizeOf(sp: Spaces, args: seq<string>): nat {
    if args == [] then 0
    else
      var a := args[|args| - 1];
      SizeOf(sp, args[..|args| - 1]) + |a| + 1 + if NeedsEscape(sp, a) then 2 else 0
  }

  lemma {:induction false} BuildSnoc(sp: Spaces, args: seq<string>, a: string)
    ensures Build(sp, args + [a]) ==
            if args == [] then Piece(sp, a) else Build(sp, args) + [' '] + Piece(sp, a)
  {
    if args != [] {
      BuildSnoc(sp, args[1..], a);
      assert (args + [a])[0] == args[0] && (args + [a])[1..] == args[1..] + [a];
      if |args| > 1 {
        assert Build(sp, args + [a])
            == Piece(sp, args[0]) + [' '] + (Build(sp, args[1..]) + [' '] + Piece(sp, a));
      }
    }
  }

  /** The buffer fits exactly: the size is the length of the command line and its NUL. */
  lemma {:induction false} ExactFit(sp: Spaces, args: seq<string>)
    ensures args != [] ==> SizeOf(sp, args) == |Build(sp, args)| + 1
  {
    if args != [] {
      var front, a := args[..|args| - 1], args[|args| - 1];
      assert args == front + [a];
      ExactFit(sp, front);
      BuildSnoc(sp, front, a);
    }
  }

  lemma {:induction false} PrefixFits(sp: Spaces, args: seq<string>, i: nat)
    requires i <= |args|
    ensures SizeOf(sp, args[..i]) <= SizeOf(sp, args)
    decreases |args| - i
  {
    if i == |args| {
      assert args[..i] == args;
    } else {
      assert args[..i + 1][..i] == args[..i];
      PrefixFits(sp, args, i + 1);
    }
  }

  ghost predicate Holds(buf: array<char>, text: string)
    reads buf
  {
    |text| < buf.Length && CString(text) && buf[..|text|] == text && buf[|text|] == NUL
  }

  /** `strcat`: the destination must have room for the result and its NUL. */
  method Strcat(buf: array<char>, s: string, ghost text: string)
    requires Holds(buf, text) && CString(s)
    requires |text| + |s| < buf.Length
    modifies buf
    ensures Holds(buf, text + s)
  {
    var p := 0;
    while buf[p] != NUL
      invariant p <= |text|
      decreases |text| - p
    {
      assert buf[p] == buf[..|text|][p];
      p := p + 1;
    }
    assert forall i :: 0 <= i < |text| ==> buf[i] == buf[..|text|][i] == text[i] && text[i] in text;
    assert p == |text|;
    for i := 0 to |s|
      invariant buf[..p + i] == text + s[..i]
    {
      buf[p + i] := s[i];
      assert s[..i + 1] == s[..i] + [s[i]];
      assert buf[..p + i + 1] == buf[..p + i] + [s[i]];
    }
    buf[p + |s|] := NUL;
    assert s[..|s|] == s;
  }

  lemma PieceAppended(sp: Spaces, t: string, arg: string)
    ensures t + Piece(sp, arg) == if NeedsEscape(sp, arg) then t + "'" + arg + "'" else t + arg
    ensures |Piece(sp, arg)| == |arg| + if NeedsEscape(sp, arg) then 2 else 0
  {
    assert [SQ] == "'";
  }

  lemma QuoteStrings()
    ensures CString("'") && CString(" ") && " " == [' ']
  {}

  /** The body of exec_task_exec's second loop. */
  method AppendArgument(sp: Spaces, cmdline: array<char>, arg: string, first: bool, ghost text: string)
    requires Holds(cmdline, text) && CString(arg)
    requires |text| + (if first then 0 else 1) + |Piece(sp, arg)| < cmdline.Length
    modifies cmdline
    ensures Holds(cmdline, (if first then text else text + [' ']) + Piece(sp, arg))
  {
    hide Holds, NeedsEscape, Piece, CString;
    ghost var t := if first then text else text + [' '];
    PieceAppended(sp, t, arg);
    QuoteStrings();
    var escape := ShellStrNeedsEscape(sp, arg);
    if !first {
      Strcat(cmdline, " ", text);
    }
    if escape {
      Strcat(cmdline, "'", t);
      Strcat(cmdline, arg, t + "'");
      Strcat(cmdline, "'", t + "'" + arg);
    } else {
      Strcat(cmdline, arg, t);
    }
  }

  /** The first loop of exec_task_exec. */
  method CommandLineSize(sp: Spaces, argv: seq<string>) returns (length: nat)
    requires |argv| >= 2 && forall a :: a in argv ==> CString(a)
    ensures length == SizeOf(sp, argv[1..])
  {
    hide NeedsEscape;
    ghost var args := argv[1..];
    length := 0;
    for i := 1 to |argv|
      invariant length == SizeOf(sp, args[..i - 1])
    {
      length := length + |argv[i]| + 1;
      var escape := ShellStrNeedsEscape(sp, argv[i]);
      if escape {
        length := length + 2;
      }
      assert args[..i][..i - 1] == args[..i - 1] && args[..i][i - 1] == argv[i];
    }
    assert args[..|args|] == args;
  }

  lemma ZeroedHolds(buf: array<char>)
    requires buf.Length > 0 && buf[0] == NUL
    ensures Holds(buf, [])
  {}

  lemma HoldsAll(buf: array<char>, text: string)
    requires Holds(buf, text) && buf.Length == |text| + 1
    ensures buf[..] == text + [NUL]
  {}

  /** `reply` is what the remote task manager answers; argv[0] is the command's own name. */
  method ExecTaskExec(sp: Spaces, argv: seq<string>, reply: int) returns (ret: int, cmdline: array<char>)
    requires forall a :: a in argv ==> CString(a)
    ensures |argv| < 2 ==> ret == -1
    ensures |argv| >= 2 ==> ret == reply && cmdline[..] == Build(sp, argv[1..]) + [NUL]
  {
    hide Holds, Piece, SizeOf;
    var argc := |argv|;
    if argc < 2 {
      cmdline := new char[0];
      return -1, cmdline;
    }
    ghost var args := argv[1..];
    var length := CommandLineSize(sp, argv);
    ExactFit(sp, args);
    cmdline := new char[length](_ => NUL);
    ZeroedHolds(cmdline);
    for i := 1 to argc
      invariant Holds(cmdline, Build(sp, args[..i - 1]))
    {
      assert args[..i] == args[..i - 1] + [argv[i]];
      BuildSnoc(sp, args[..i - 1], argv[i]);
      ExactFit(sp, args[..i]);
      PrefixFits(sp, args, i);
      AppendArgument(sp, cmdline, argv[i], i == 1, Build(sp, args[..i - 1]));
      assert [] + Piece(sp, argv[i]) == Piece(sp, argv[i]);
    }
    assert args[..argc - 1] == args;
    HoldsAll(cmdline, Build(sp, args));
    return reply, cmdline;
  }
}
