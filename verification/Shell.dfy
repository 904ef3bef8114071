/** What the client's command-line code computes: quote stripping, tokens, and the command
    line that task-exec builds. Strings are C strings without their terminating NUL. */
module Shell {

  const NUL := '\0'
  const SQ := '\''
  const DQ := '"'

  predicate IsQuote(c: char) {
    c == DQ || c == SQ
  }

  /** The characters `isspace` accepts depend on the locale; no locale makes a quote, NUL or the
      letter x one of them, and every locale includes the blank. */
  type Spaces = sp: set<char> | ' ' in sp && DQ !in sp && SQ !in sp && NUL !in sp && 'x' !in sp witness {' '}

  ghost predicate CString(s: string) {
    NUL !in s
  }

  // ---------------------------------------------------------------- quotes

  /** The open quote after reading `c` with `q` open; NUL stands for none. */
  function Next(q: char, c: char): char {
    if !IsQuote(c) then q
    else if q == NUL then c
    else if q == c then NUL
    else q
  }

  /** Whether `c` itself is part of the text when read with `q` open. */
  predicate Kept(q: char, c: char) {
    !IsQuote(c) || (q != NUL && q != c)
  }

  function Quote(q: char, s: string): char
    decreases s
  {
    if s == [] then q else Quote(Next(q, s[0]), s[1..])
  }

  /** `s` without its quotes, read with `q` open. */
  function Strip(q: char, s: string): string
    decreases s
  {
    if s == [] then []
    else (if Kept(q, s[0]) then [s[0]] else []) + Strip(Next(q, s[0]), s[1..])
  }

  /** Every quote that is opened is closed. */
  predicate Balanced(s: string) {
    Quote(NUL, s) == NUL
  }

  /** At most one of the two quote characters occurs. */
  predicate OneKind(s: string) {
    DQ !in s || SQ !in s
  }

  /** What `unquote` writes: its copying loop starts with the quote its counting loop ended
      with. */
  function Unquoted(s: string): string {
    Strip(Quote(NUL, s), s)
  }

  function Count(c: char, s: string): nat {
    if s == [] then 0 else (if s[0] == c then 1 else 0) + Count(c, s[1..])
  }

  lemma {:induction false} QuoteAppend(q: char, a: string, b: string)
    ensures Quote(q, a + b) == Quote(Quote(q, a), b)
    ensures Strip(q, a + b) == Strip(q, a) + Strip(Quote(q, a), b)
    decreases a
  {
    if a == [] {
      assert a + b == b;
    } else {
      var p, kept := Next(q, a[0]), if Kept(q, a[0]) then [a[0]] else [];
      assert (a + b)[0] == a[0] && (a + b)[1..] == a[1..] + b;
      QuoteAppend(p, a[1..], b);
      assert Strip(q, a + b) == kept + (Strip(p, a[1..]) + Strip(Quote(p, a[1..]), b));
      assert Strip(q, a) == kept + Strip(p, a[1..]);
    }
  }

  /** A piece without the closing quote is literal text. */
  lemma {:induction false} QuoteFree(q: char, s: string)
    requires if q == NUL then DQ !in s && SQ !in s else IsQuote(q) && q !in s
    ensures Quote(q, s) == q && Strip(q, s) == s
  {
    if s != [] {
      QuoteFree(q, s[1..]);
    }
  }

  lemma {:induction false} QuoteIsAQuote(q: char, s: string)
    requires q == NUL || IsQuote(q)
    ensures Quote(q, s) == NUL || (IsQuote(Quote(q, s)) && (Quote(q, s) == q || Quote(q, s) in s))
    decreases s
  {
    if s != [] {
      QuoteIsAQuote(Next(q, s[0]), s[1..]);
    }
  }

  /** With only the quote `k` around, stripping drops every `k`, whatever is open. */
  lemma {:induction false} StripOneKind(q: char, p: char, k: char, s: string)
    requires IsQuote(k) && q in {NUL, k} && p in {NUL, k}
    requires forall c :: c in s && IsQuote(c) ==> c == k
    ensures Strip(q, s) == Strip(p, s)
    decreases s
  {
    if s != [] {
      StripOneKind(Next(q, s[0]), Next(p, s[0]), k, s[1..]);
    }
  }

  /** The two-pass unquote is right when quotes are balanced, and when only one kind occurs. */
  lemma UnquotedIsStrip(s: string)
    requires Balanced(s) || OneKind(s)
    ensures Unquoted(s) == Strip(NUL, s)
  {
    QuoteIsAQuote(NUL, s);
    if !Balanced(s) {
      var k := Quote(NUL, s);
      StripOneKind(k, NUL, k, s);
    }
  }

  /** `unquote` allocates for what its counting loop counted; the copying loop can write more. */
  predicate Overruns(s: string) {
    |Unquoted(s)| > |Strip(NUL, s)|
  }

  /** How many characters of `s` open or close a quote when it is read with `q` open. */
  function Delimiters(q: char, s: string): nat
    decreases s
  {
    if s == [] then 0 else (if Kept(q, s[0]) then 0 else 1) + Delimiters(Next(q, s[0]), s[1..])
  }

  lemma {:induction false} StripLength(q: char, s: string)
    ensures |Strip(q, s)| + Delimiters(q, s) == |s|
    decreases s
  {
    if s != [] {
      StripLength(Next(q, s[0]), s[1..]);
    }
  }

  lemma {:induction false} DelimitersAreQuotes(q: char, s: string)
    ensures Delimiters(q, s) == Delimiters(q, Quotes(s))
    decreases s
  {
    if s != [] {
      DelimitersAreQuotes(Next(q, s[0]), s[1..]);
      assert ([s[0]] + Quotes(s[1..]))[1..] == Quotes(s[1..]);
      assert [] + Quotes(s[1..]) == Quotes(s[1..]);
    }
  }

  /** A sequence of quotes with fewer delimiters for the copying loop, which starts with the
      quote left open, than for the counting loop. */
  predicate Overrunning(quotes: string) {
    Delimiters(Quote(NUL, quotes), quotes) < Delimiters(NUL, quotes)
  }

  /** Exactly when unquote writes past its buffer: whatever text surrounds them, its quotes
      alone decide. */
  lemma OverrunsExactlyWhen(s: string)
    ensures Overruns(s) <==> Overrunning(Quotes(s))
  {
    QuotesDecide(NUL, s);
    var q := Quote(NUL, s);
    StripLength(NUL, s);
    StripLength(q, s);
    DelimitersAreQuotes(NUL, s);
    DelimitersAreQuotes(q, s);
  }

  /** Balanced quotes, and quotes of one kind, overrun nothing. */
  lemma OverrunsAreMixed(s: string)
    requires Overruns(s)
    ensures !Balanced(s) && !OneKind(s)
  {
    if Balanced(s) || OneKind(s) {
      UnquotedIsStrip(s);
    }
  }

  /** Unbalanced quotes break the two passes apart: an empty pair of double quotes followed by
      a single quote overruns the buffer, and a double quote, a letter, a single quote, a letter
      lose the single quote. The mixed unbalanced string that comes out right does so by
      accident. */
  lemma UnbalancedUnquotes()
    ensures Strip(NUL, "\"\"'") == "" && Unquoted("\"\"'") == "\"\"" && Overruns("\"\"'")
    ensures Strip(NUL, "\"a'b") == "a'b" && Unquoted("\"a'b") == "ab"
    ensures Strip(NUL, "\"\"'\"\"") == "\"\"" == Unquoted("\"\"'\"\"")
  {
    Read3(NUL, DQ, DQ, SQ, []);
    Read3(SQ, DQ, DQ, SQ, []);
    Read3(NUL, DQ, 'a', SQ, ['b']);
    Read3(DQ, DQ, 'a', SQ, ['b']);
    Read3(NUL, DQ, DQ, SQ, [DQ, DQ]);
    Read3(SQ, DQ, DQ, SQ, [DQ, DQ]);
    assert "\"\"'" == [DQ, DQ, SQ] + [] && "\"a'b" == [DQ, 'a', SQ] + ['b'];
    assert "\"\"'\"\"" == [DQ, DQ, SQ] + [DQ, DQ];
    assert ['b'][1..] == [] && [DQ, DQ][1..] == [DQ] && [DQ][1..] == [];
  }

  lemma Read1(q: char, c: char, rest: string)
    ensures Quote(q, [c] + rest) == Quote(Next(q, c), rest)
    ensures Strip(q, [c] + rest) == (if Kept(q, c) then [c] else []) + Strip(Next(q, c), rest)
  {
    assert ([c] + rest)[1..] == rest;
  }

  /** Reading the first three characters. */
  lemma Read3(q: char, a: char, b: char, c: char, rest: string)
    ensures var q1 := Next(q, a); var q2 := Next(q1, b); var q3 := Next(q2, c);
            && Quote(q, [a, b, c] + rest) == Quote(q3, rest)
            && Strip(q, [a, b, c] + rest) ==
               (if Kept(q, a) then [a] else []) + (if Kept(q1, b) then [b] else [])
               + (if Kept(q2, c) then [c] else []) + Strip(q3, rest)
  {
    hide Quote, Strip, Kept, Next;
    var q1 := Next(q, a);
    var q2 := Next(q1, b);
    Read1(q, a, [b] + ([c] + rest));
    Read1(q1, b, [c] + rest);
    Read1(q2, c, rest);
    assert [a, b, c] + rest == [a] + ([b] + ([c] + rest));
  }

  /** The quote characters of `s`, in order. */
  function Quotes(s: string): string {
    if s == [] then [] else (if IsQuote(s[0]) then [s[0]] else []) + Quotes(s[1..])
  }

  lemma {:induction false} QuotesDecide(q: char, s: string)
    ensures Quote(q, s) == Quote(q, Quotes(s))
    ensures forall c :: IsQuote(c) ==> (c in s <==> c in Quotes(s))
    decreases s
  {
    if s != [] {
      QuotesDecide(Next(q, s[0]), s[1..]);
      assert s == [s[0]] + s[1..];
      assert ([s[0]] + Quotes(s[1..]))[1..] == Quotes(s[1..]);
      assert [] + Quotes(s[1..]) == Quotes(s[1..]);
    }
  }

  lemma {:induction false} QuotesAppend(a: string, b: string)
    ensures Quotes(a + b) == Quotes(a) + Quotes(b)
  {
    if a == [] {
      assert a + b == b;
    } else {
      var kept := if IsQuote(a[0]) then [a[0]] else [];
      assert (a + b)[0] == a[0] && (a + b)[1..] == a[1..] + b;
      QuotesAppend(a[1..], b);
      assert Quotes(a + b) == kept + (Quotes(a[1..]) + Quotes(b));
    }
  }

  /** Up to the first quote of the other kind `r`, being at no quote or at an open `q` makes
      no difference to the text: exactly one of the two readings has `q` open. */
  lemma {:induction false} BeforeTheOther(p: char, p': char, q: char, s: string)
    requires IsQuote(q) && ((p == NUL && p' == q) || (p == q && p' == NUL))
    requires forall c :: c in s && IsQuote(c) ==> c == q
    ensures Strip(p, s) == Strip(p', s)
    ensures (Quote(p, s) == NUL && Quote(p', s) == q) || (Quote(p, s) == q && Quote(p', s) == NUL)
    decreases s
  {
    if s != [] {
      BeforeTheOther(Next(p, s[0]), Next(p', s[0]), q, s[1..]);
    }
  }

  /** The first position of `c`. */
  function IndexOf(c: char, s: string): (i: nat)
    requires c in s
    ensures i < |s| && s[i] == c && c !in s[..i]
  {
    if s[0] == c then 0
    else
      assert s == [s[0]] + s[1..];
      var j := IndexOf(c, s[1..]);
      assert s[..j + 1] == [s[0]] + s[1..][..j];
      j + 1
  }

  lemma NoQuotesInX()
    ensures Quotes("x") == []
  {
    assert "x"[1..] == "";
  }

  /** An unbalanced string with both kinds of quote goes wrong once a letter follows the first
      quote that is not the unclosed one. */
  lemma MixedGoesWrong(s: string) returns (t: string)
    requires !Balanced(s) && !OneKind(s)
    ensures Quotes(t) == Quotes(s) && Unquoted(t) != Strip(NUL, t)
    ensures forall c :: c in t ==> c in s || c == 'x'
  {
    hide Strip, Quote, Quotes;
    var q := Quote(NUL, s);
    QuoteIsAQuote(NUL, s);
    var r := if q == DQ then SQ else DQ;
    var i := IndexOf(r, s);
    var a, b := s[..i], s[i + 1..];
    var head := a + [r] + "x";
    t := head + b;
    assert s == a + [r] + b;
    QuotesAppend(a + [r], b);
    QuotesAppend(a + [r], "x");
    QuotesAppend(head, b);
    NoQuotesInX();
    QuotesDecide(NUL, s);
    QuotesDecide(NUL, t);
    BeforeTheOther(NUL, q, q, a);
    HeadsDiffer(NUL, q, r, a);
    QuoteAppend(NUL, head, b);
    QuoteAppend(q, head, b);
    var n := |Strip(NUL, a)|;
    assert Strip(NUL, t)[n] != Strip(q, t)[n];
  }

  lemma HeadsDiffer(p: char, q: char, r: char, a: string)
    requires IsQuote(q) && IsQuote(r) && q != r && p == NUL
    requires Strip(p, a) == Strip(q, a)
    requires (Quote(p, a) == NUL && Quote(q, a) == q) || (Quote(p, a) == q && Quote(q, a) == NUL)
    ensures var u, v, n := Strip(p, a + [r] + "x"), Strip(q, a + [r] + "x"), |Strip(p, a)|;
            n < |u| && n < |v| && u[n] != v[n]
  {
    assert a + [r] + "x" == a + [r, 'x'];
    QuoteAppend(p, a, [r, 'x']);
    QuoteAppend(q, a, [r, 'x']);
    assert [r, 'x'][1..] == ['x'] && ['x'][1..] == [];
    assert forall o :: Strip(o, [r, 'x']) == (if Kept(o, r) then [r] else []) + Strip(Next(o, r), ['x']);
    assert forall o :: Strip(o, ['x']) == ['x'] + Strip(o, []);
  }

  /** Exactly when the two-pass unquote is right, in terms of the quote characters alone: for
      every string with these quotes, whatever text surrounds them, it strips the quotes - if
      and only if they are balanced or all of one kind. */
  lemma UnquoteIsRightExactlyWhen(s: string)
    ensures (forall t: string | Quotes(t) == Quotes(s) :: Unquoted(t) == Strip(NUL, t))
            <==> Balanced(s) || OneKind(s)
  {
    if Balanced(s) || OneKind(s) {
      forall t: string | Quotes(t) == Quotes(s) ensures Unquoted(t) == Strip(NUL, t) {
        QuotesDecide(NUL, s);
        QuotesDecide(NUL, t);
        UnquotedIsStrip(t);
      }
    } else {
      var t := MixedGoesWrong(s);
    }
  }

  // ---------------------------------------------------------------- tokens

  /** The tokens as shell_parse slices them, quotes included: `cur` is the token read so far
      and `q` the quote open in it. */
  function Slices(sp: Spaces, q: char, cur: string, s: string): seq<string>
    decreases s
  {
    if s == [] then
      if cur == [] then [] else [cur]
    else if q == NUL && s[0] in sp then
      (if cur == [] then [] else [cur]) + Slices(sp, NUL, [], s[1..])
    else
      Slices(sp, Next(q, s[0]), cur + [s[0]], s[1..])
  }

  function Unquotes(ws: seq<string>): seq<string> {
    seq(|ws|, i requires 0 <= i < |ws| => Unquoted(ws[i]))
  }

  function Strips(ws: seq<string>): seq<string> {
    seq(|ws|, i requires 0 <= i < |ws| => Strip(NUL, ws[i]))
  }

  /** What shell_parse stores: slice first, then unquote each slice. */
  function Parsed(sp: Spaces, line: string): seq<string> {
    Unquotes(Slices(sp, NUL, [], line))
  }

  /** The reference tokenizer: one pass that emits unquoted characters directly. */
  function OnePass(sp: Spaces, q: char, started: bool, text: string, s: string): seq<string>
    decreases s
  {
    if s == [] then
      if started then [text] else []
    else if IsQuote(s[0]) then
      if q == NUL then OnePass(sp, s[0], true, text, s[1..])
      else if q == s[0] then OnePass(sp, NUL, true, text, s[1..])
      else OnePass(sp, q, true, text + [s[0]], s[1..])
    else if q == NUL && s[0] in sp then
      (if started then [text] else []) + OnePass(sp, NUL, false, [], s[1..])
    else
      OnePass(sp, q, true, text + [s[0]], s[1..])
  }

  function Tokens(sp: Spaces, line: string): seq<string> {
    OnePass(sp, NUL, false, [], line)
  }

  lemma StripSnoc(q: char, cur: string, c: char)
    ensures Quote(q, cur + [c]) == Next(Quote(q, cur), c)
    ensures Strip(q, cur + [c]) == Strip(q, cur) + if Kept(Quote(q, cur), c) then [c] else []
  {
    QuoteAppend(q, cur, [c]);
    assert [c][1..] == [];
    var p := Quote(q, cur);
    assert Strip(p, [c]) == (if Kept(p, c) then [c] else []) + Strip(Next(p, c), []);
  }

  /** Slicing and then stripping each slice is the one-pass tokenizer. */
  lemma {:induction false} SlicesRefineOnePass(sp: Spaces, q: char, cur: string, s: string)
    requires q == Quote(NUL, cur)
    ensures Strips(Slices(sp, q, cur, s)) == OnePass(sp, q, cur != [], Strip(NUL, cur), s)
    decreases s
  {
    if s != [] {
      if q == NUL && s[0] in sp {
        SlicesRefineOnePass(sp, NUL, [], s[1..]);
      } else {
        StripSnoc(NUL, cur, s[0]);
        SlicesRefineOnePass(sp, Next(q, s[0]), cur + [s[0]], s[1..]);
        assert Strip(NUL, cur) + [] == Strip(NUL, cur);
      }
    }
  }

  /** Every slice but the last is balanced; the last ends with the quote the line ends with. */
  lemma {:induction false} SlicesBalanced(sp: Spaces, q: char, cur: string, s: string)
    requires q == Quote(NUL, cur)
    ensures var ws := Slices(sp, q, cur, s);
            && (forall i :: 0 <= i < |ws| - 1 ==> Balanced(ws[i]))
            && Quote(q, s) == if ws == [] then NUL else Quote(NUL, ws[|ws| - 1])
    decreases s
  {
    if s != [] {
      if q == NUL && s[0] in sp {
        SlicesBalanced(sp, NUL, [], s[1..]);
      } else {
        StripSnoc(NUL, cur, s[0]);
        SlicesBalanced(sp, Next(q, s[0]), cur + [s[0]], s[1..]);
      }
    }
  }

  /** Slices are made of the line's own characters. */
  lemma {:induction false} SlicesAreFromTheLine(sp: Spaces, q: char, cur: string, s: string, c: char)
    ensures forall w :: w in Slices(sp, q, cur, s) && c in w ==> c in cur || c in s
    decreases s
  {
    if s != [] {
      if q == NUL && s[0] in sp {
        SlicesAreFromTheLine(sp, NUL, [], s[1..], c);
      } else {
        SlicesAreFromTheLine(sp, Next(q, s[0]), cur + [s[0]], s[1..], c);
      }
    }
  }

  /** shell_parse agrees with the one-pass tokenizer on every token but the last, and on the
      last as far as unquote does. */
  lemma ParsedAlmostTokens(sp: Spaces, line: string)
    ensures var ws, p, t := Slices(sp, NUL, [], line), Parsed(sp, line), Tokens(sp, line);
            && |p| == |t| == |ws|
            && (forall i :: 0 <= i < |p| - 1 ==> p[i] == t[i])
            && (p == t <==> p == [] || Unquoted(ws[|ws| - 1]) == Strip(NUL, ws[|ws| - 1]))
  {
    var ws := Slices(sp, NUL, [], line);
    SlicesRefineOnePass(sp, NUL, [], line);
    SlicesBalanced(sp, NUL, [], line);
    assert Strips(ws) == Tokens(sp, line);
    forall i | 0 <= i < |ws| - 1 ensures Unquoted(ws[i]) == Strip(NUL, ws[i]) {
      UnquotedIsStrip(ws[i]);
    }
    if ws != [] {
      assert Parsed(sp, line)[|ws| - 1] == Unquoted(ws[|ws| - 1]);
      assert Tokens(sp, line)[|ws| - 1] == Strip(NUL, ws[|ws| - 1]);
    }
  }

  /** Some token's buffer is overrun. */
  ghost predicate AnyOverruns(ws: seq<string>) {
    exists w :: w in ws && Overruns(w)
  }

  /** Parsing the line into a vector with room for all its tokens overruns a buffer. */
  ghost predicate LineOverruns(sp: Spaces, line: string) {
    AnyOverruns(Slices(sp, NUL, [], line))
  }

  /** Only the last token's buffer can be overrun, so it takes a vector with room for it. */
  lemma OnlyTheLastOverruns(sp: Spaces, line: string, k: nat)
    requires k <= |Slices(sp, NUL, [], line)|
    ensures var ws := Slices(sp, NUL, [], line);
            AnyOverruns(ws[..k]) <==> k == |ws| > 0 && Overruns(ws[|ws| - 1])
  {
    hide Overruns;
    var ws := Slices(sp, NUL, [], line);
    SlicesBalanced(sp, NUL, [], line);
    if AnyOverruns(ws[..k]) {
      var w :| w in ws[..k] && Overruns(w);
      OverrunsAreMixed(w);
      var i :| 0 <= i < k && ws[i] == w;
    }
  }

  /** Exactly when a line overruns a buffer: the quotes of its last token decide. Such a line
      is unbalanced and has both kinds of quote. */
  lemma LineOverrunsExactlyWhen(sp: Spaces, line: string)
    ensures var ws := Slices(sp, NUL, [], line);
            LineOverruns(sp, line) <==> ws != [] && Overrunning(Quotes(ws[|ws| - 1]))
    ensures LineOverruns(sp, line) ==> !Balanced(line) && !OneKind(line)
  {
    hide Overruns, Overrunning;
    var ws := Slices(sp, NUL, [], line);
    OnlyTheLastOverruns(sp, line, |ws|);
    assert ws[..|ws|] == ws;
    if ws != [] {
      OverrunsExactlyWhen(ws[|ws| - 1]);
    }
    if LineOverruns(sp, line) {
      OverrunsAreMixed(ws[|ws| - 1]);
      SlicesBalanced(sp, NUL, [], line);
      SlicesAreFromTheLine(sp, NUL, [], line, DQ);
      SlicesAreFromTheLine(sp, NUL, [], line, SQ);
    }
  }

  lemma ParsedIsTokens(sp: Spaces, line: string)
    requires Balanced(line) || OneKind(line)
    ensures Parsed(sp, line) == Tokens(sp, line)
  {
    var ws := Slices(sp, NUL, [], line);
    ParsedAlmostTokens(sp, line);
    SlicesBalanced(sp, NUL, [], line);
    SlicesAreFromTheLine(sp, NUL, [], line, DQ);
    SlicesAreFromTheLine(sp, NUL, [], line, SQ);
    if ws != [] {
      UnquotedIsStrip(ws[|ws| - 1]);
    }
  }

  /** A stretch in which no token ends. */
  predicate Solid(sp: Spaces, q: char, s: string)
    decreases s
  {
    s == [] || (!(q == NUL && s[0] in sp) && Solid(sp, Next(q, s[0]), s[1..]))
  }

  lemma {:induction false} SolidIsOneSlice(sp: Spaces, q: char, cur: string, u: string, rest: string)
    requires Solid(sp, q, u)
    ensures Slices(sp, q, cur, u + rest) == Slices(sp, Quote(q, u), cur + u, rest)
    decreases u
  {
    if u == [] {
      assert u + rest == rest && cur + u == cur;
    } else {
      assert (u + rest)[0] == u[0] && (u + rest)[1..] == u[1..] + rest;
      SolidIsOneSlice(sp, Next(q, u[0]), cur + [u[0]], u[1..], rest);
      assert cur + [u[0]] + u[1..] == cur + u;
    }
  }

  lemma {:induction false} NoSpacesIsSolid(sp: Spaces, q: char, s: string)
    requires forall c :: c in s ==> c !in sp
    ensures Solid(sp, q, s)
    decreases s
  {
    if s != [] {
      NoSpacesIsSolid(sp, Next(q, s[0]), s[1..]);
    }
  }

  /** Exactly when the tokenizer is right, in terms of the line's quote characters alone: on
      every line with these quotes shell_parse is the one-pass tokenizer - if and only if the
      quotes are balanced or all of one kind. */
  lemma ParseIsRightExactlyWhen(sp: Spaces, line: string)
    ensures (forall t: string | Quotes(t) == Quotes(line) :: Parsed(sp, t) == Tokens(sp, t))
            <==> Balanced(line) || OneKind(line)
  {
    QuotesDecide(NUL, line);
    if Balanced(line) || OneKind(line) {
      forall t: string | Quotes(t) == Quotes(line) ensures Parsed(sp, t) == Tokens(sp, t) {
        QuotesDecide(NUL, t);
        ParsedIsTokens(sp, t);
      }
    } else {
      var s := Quotes(line);
      QuotesOfQuotes(line);
      var t := MixedGoesWrong(s);
      assert Slices(sp, NUL, [], t) == [t] by {
        NoSpacesIsSolid(sp, NUL, t);
        SolidIsOneSlice(sp, NUL, [], t, []);
        assert t + [] == t && [] + t == t;
      }
      ParsedAlmostTokens(sp, t);
    }
  }

  lemma {:induction false} QuotesOfQuotes(s: string)
    ensures Quotes(Quotes(s)) == Quotes(s)
    ensures forall c :: c in Quotes(s) ==> IsQuote(c)
  {
    if s != [] {
      QuotesOfQuotes(s[1..]);
      assert ([s[0]] + Quotes(s[1..]))[1..] == Quotes(s[1..]);
      assert [] + Quotes(s[1..]) == Quotes(s[1..]);
    }
  }

  /** A line yields no token exactly when it is all whitespace. */
  lemma {:induction false} NoTokens(sp: Spaces, q: char, cur: string, s: string)
    requires q == NUL || cur != []
    ensures Slices(sp, q, cur, s) == [] <==> cur == [] && forall c :: c in s ==> c in sp
    ensures forall w :: w in Slices(sp, q, cur, s) ==> w != []
    decreases s
  {
    if s != [] {
      assert s == [s[0]] + s[1..];
      if q == NUL && s[0] in sp {
        NoTokens(sp, NUL, [], s[1..]);
      } else {
        NoTokens(sp, Next(q, s[0]), cur + [s[0]], s[1..]);
      }
    }
  }

  // ---------------------------------------------------------------- the command line of task-exec

  predicate NeedsEscape(sp: Spaces, a: string) {
    exists c :: c in a && c in sp
  }

  /** One argument as task-exec writes it. */
  function Piece(sp: Spaces, a: string): string {
    if NeedsEscape(sp, a) then [SQ] + a + [SQ] else a
  }

  /** The command line task-exec builds from its arguments. */
  function Build(sp: Spaces, args: seq<string>): string {
    if args == [] then []
    else if |args| == 1 then Piece(sp, args[0])
    else Piece(sp, args[0]) + [' '] + Build(sp, args[1..])
  }

  /** The arguments that survive: non-empty, no single quote next to whitespace, and no quote of
      either kind without it. */
  predicate Good(sp: Spaces, a: string) {
    a != [] && SQ !in a && (NeedsEscape(sp, a) || DQ !in a)
  }

  function Pieces(sp: Spaces, args: seq<string>): seq<string> {
    seq(|args|, i requires 0 <= i < |args| => Piece(sp, args[i]))
  }

  lemma GoodPiece(sp: Spaces, a: string)
    requires Good(sp, a)
    ensures Solid(sp, NUL, Piece(sp, a)) && Quote(NUL, Piece(sp, a)) == NUL && Piece(sp, a) != []
    ensures Unquoted(Piece(sp, a)) == a
  {
    if NeedsEscape(sp, a) {
      QuoteFree(SQ, a);
      QuoteAppend(SQ, a, [SQ]);
      Read1(SQ, SQ, []);
      Read1(NUL, SQ, a + [SQ]);
      assert [SQ] + [] == [SQ] && [SQ] + (a + [SQ]) == Piece(sp, a);
      QuotedIsSolid(sp, a, [SQ]);
      assert Piece(sp, a)[1..] == a + [SQ];
    } else {
      NoSpacesIsSolid(sp, NUL, a);
      QuoteFree(NUL, a);
    }
  }

  lemma {:induction false} QuotedIsSolid(sp: Spaces, a: string, rest: string)
    requires SQ !in a && rest == [SQ]
    ensures Solid(sp, SQ, a + rest)
  {
    if a == [] {
      assert a + rest == [SQ] && [SQ][1..] == [];
    } else {
      assert (a + rest)[1..] == a[1..] + rest;
      QuotedIsSolid(sp, a[1..], rest);
    }
  }

  /** A good argument in front is sliced off as its piece. */
  lemma FirstPiece(sp: Spaces, a: string, rest: string)
    requires Good(sp, a)
    ensures Slices(sp, NUL, [], Piece(sp, a)) == [Piece(sp, a)]
    ensures Slices(sp, NUL, [], Piece(sp, a) + [' '] + rest) == [Piece(sp, a)] + Slices(sp, NUL, [], rest)
  {
    var u := Piece(sp, a);
    GoodPiece(sp, a);
    SolidIsOneSlice(sp, NUL, [], u, []);
    SolidIsOneSlice(sp, NUL, [], u, [' '] + rest);
    assert u + [] == u && [] + u == u && u + ([' '] + rest) == u + [' '] + rest;
    assert ([' '] + rest)[1..] == rest;
  }

  lemma {:induction false} GoodArgsSlice(sp: Spaces, args: seq<string>)
    requires forall a :: a in args ==> Good(sp, a)
    ensures Slices(sp, NUL, [], Build(sp, args)) == Pieces(sp, args)
  {
    if args != [] {
      FirstPiece(sp, args[0], Build(sp, args[1..]));
      GoodArgsSlice(sp, args[1..]);
    }
  }

  /** The quoter is undone by the tokenizer. */
  lemma RoundTrip(sp: Spaces, args: seq<string>)
    requires forall a :: a in args ==> Good(sp, a)
    ensures Parsed(sp, Build(sp, args)) == args
  {
    GoodArgsSlice(sp, args);
    forall i | 0 <= i < |args| ensures Unquoted(Piece(sp, args[i])) == args[i] {
      GoodPiece(sp, args[i]);
    }
  }

  function Total(c: char, ws: seq<string>): nat {
    if ws == [] then 0 else Count(c, ws[0]) + Total(c, ws[1..])
  }

  lemma {:induction false} CountAppend(c: char, a: string, b: string)
    ensures Count(c, a + b) == Count(c, a) + Count(c, b)
    decreases a
  {
    if a == [] {
      assert a + b == b;
    } else {
      assert (a + b)[0] == a[0] && (a + b)[1..] == a[1..] + b;
      CountAppend(c, a[1..], b);
    }
  }

  lemma {:induction false} CountIn(c: char, s: string)
    ensures Count(c, s) == 0 <==> c !in s
    decreases s
  {
    if s != [] {
      assert s == [s[0]] + s[1..];
      CountIn(c, s[1..]);
    }
  }

  lemma CountOne(c: char, d: char)
    ensures Count(c, [d]) == if d == c then 1 else 0
  {
    assert [d][1..] == [];
  }

  /** Slicing drops no quote. */
  lemma {:induction false} SlicesKeepQuotes(sp: Spaces, q: char, cur: string, s: string, c: char)
    requires IsQuote(c)
    ensures Total(c, Slices(sp, q, cur, s)) == Count(c, cur) + Count(c, s)
    decreases s
  {
    if s == [] {
      assert cur != [] ==> [cur][1..] == [];
    } else if q == NUL && s[0] in sp {
      SlicesKeepQuotes(sp, NUL, [], s[1..], c);
      var rest := Slices(sp, NUL, [], s[1..]);
      assert ([cur] + rest)[1..] == rest && [] + rest == rest;
    } else {
      SlicesKeepQuotes(sp, Next(q, s[0]), cur + [s[0]], s[1..], c);
      CountAppend(c, cur, [s[0]]);
      CountOne(c, s[0]);
    }
  }

  /** Building adds no double quote. */
  lemma {:induction false} BuildKeepsDoubleQuotes(sp: Spaces, args: seq<string>)
    ensures Count(DQ, Build(sp, args)) == Total(DQ, args)
  {
    if args != [] {
      var a := args[0];
      CountAppend(DQ, [SQ] + a, [SQ]);
      CountAppend(DQ, [SQ], a);
      CountOne(DQ, SQ);
      CountOne(DQ, ' ');
      BuildKeepsDoubleQuotes(sp, args[1..]);
      var rest := Build(sp, args[1..]);
      CountAppend(DQ, Piece(sp, a) + [' '], rest);
      CountAppend(DQ, Piece(sp, a), [' ']);
    }
  }

  /** Stripping adds no double quote; when it drops none, it started outside a double-quoted
      part and drops every single quote. */
  lemma {:induction false} StripCounts(q: char, w: string)
    requires q == NUL || IsQuote(q)
    ensures Count(DQ, Strip(q, w)) <= Count(DQ, w)
    ensures Count(DQ, Strip(q, w)) == Count(DQ, w) && (q == DQ ==> DQ in w) ==>
              q != DQ && SQ !in Strip(q, w)
    decreases w
  {
    if w != [] {
      var c, rest := w[0], Strip(Next(q, w[0]), w[1..]);
      assert w == [c] + w[1..];
      StripCounts(Next(q, c), w[1..]);
      CountAppend(DQ, [c], rest);
      CountOne(DQ, c);
      assert [] + rest == rest;
    }
  }

  /** No double quote is dropped when `w` is unquoted. */
  predicate KeepsDoubleQuotes(w: string) {
    Count(DQ, Unquoted(w)) == Count(DQ, w)
  }

  lemma UnquotedCounts(w: string)
    ensures Count(DQ, Unquoted(w)) <= Count(DQ, w)
    ensures KeepsDoubleQuotes(w) ==> SQ !in Unquoted(w)
  {
    QuoteIsAQuote(NUL, w);
    StripCounts(Quote(NUL, w), w);
  }

  lemma {:induction false} NoneDropped(ws: seq<string>)
    ensures Total(DQ, Unquotes(ws)) <= Total(DQ, ws)
    ensures Total(DQ, Unquotes(ws)) == Total(DQ, ws) ==> forall w :: w in ws ==> KeepsDoubleQuotes(w)
  {
    if ws != [] {
      UnquotedCounts(ws[0]);
      NoneDropped(ws[1..]);
      assert Unquotes(ws)[1..] == Unquotes(ws[1..]);
      assert ws == [ws[0]] + ws[1..];
    }
  }

  /** A double quote that is read with no quote or a double quote open is dropped. */
  lemma DropsTheFirst(q: char, u: string, rest: string)
    requires q in {NUL, DQ} && SQ !in u && DQ !in u
    ensures Count(DQ, Strip(q, u + [DQ] + rest)) < Count(DQ, u + [DQ] + rest)
  {
    var q1 := if q == NUL then DQ else NUL;
    QuoteFree(q, u);
    QuoteAppend(q, u, [DQ] + rest);
    Read1(q, DQ, rest);
    assert u + [DQ] + rest == u + ([DQ] + rest);
    assert [] + Strip(q1, rest) == Strip(q1, rest);
    CountAppend(DQ, u, [DQ] + rest);
    CountAppend(DQ, [DQ], rest);
    CountOne(DQ, DQ);
    CountAppend(DQ, u, Strip(q1, rest));
    StripCounts(q1, rest);
  }

  /** A token being read stays a prefix of the first slice. */
  lemma {:induction false} FirstSliceStarts(sp: Spaces, q: char, cur: string, s: string)
    requires cur != []
    ensures var ws := Slices(sp, q, cur, s); ws != [] && cur <= ws[0]
    decreases s
  {
    if s != [] && !(q == NUL && s[0] in sp) {
      FirstSliceStarts(sp, Next(q, s[0]), cur + [s[0]], s[1..]);
    }
  }

  lemma LosesADoubleQuote(a: string, w: string)
    requires a <= w && SQ !in a && DQ in a && Quote(NUL, w) in {NUL, DQ}
    ensures !KeepsDoubleQuotes(w)
  {
    var i := IndexOf(DQ, a);
    var u, v := w[..i], w[i + 1..];
    assert w[i] == a[i] && u == a[..i];
    assert w == u + [DQ] + v;
    DropsTheFirst(Quote(NUL, w), u, v);
  }

  /** The first slice of a line that starts with an unescaped argument. */
  lemma FirstSliceOf(sp: Spaces, a: string, rest: string)
    requires a != [] && !NeedsEscape(sp, a)
    ensures var ws := Slices(sp, NUL, [], a + rest);
            && ws != [] && a <= ws[0]
            && (|ws| > 1 ==> Balanced(ws[0]))
            && (rest == [] ==> ws[0] == a)
  {
    hide Solid;
    NoSpacesIsSolid(sp, NUL, a);
    SolidIsOneSlice(sp, NUL, [], a, rest);
    assert [] + a == a;
    FirstSliceStarts(sp, Quote(NUL, a), a, rest);
    SlicesBalanced(sp, NUL, [], a + rest);
  }

  /** An unescaped argument with a double quote but no single quote loses that quote. */
  lemma BareDoubleQuoteIsDropped(sp: Spaces, args: seq<string>)
    requires args != [] && SQ !in args[0] && DQ in args[0] && !NeedsEscape(sp, args[0])
    requires var ws := Slices(sp, NUL, [], Build(sp, args)); |ws| >= |args|
    ensures exists w :: w in Slices(sp, NUL, [], Build(sp, args)) && !KeepsDoubleQuotes(w)
  {
    var a := args[0];
    var rest := if |args| == 1 then [] else [' '] + Build(sp, args[1..]);
    assert Build(sp, args) == a + rest;
    hide Slices, KeepsDoubleQuotes, Quote;
    FirstSliceOf(sp, a, rest);
    var w := Slices(sp, NUL, [], a + rest)[0];
    QuoteIsAQuote(NUL, w);
    LosesADoubleQuote(a, w);
  }

  /** Without single quotes, if no double quote was dropped and enough tokens came out, every
      argument is good. */
  lemma {:induction false} AllGood(sp: Spaces, args: seq<string>)
    requires forall a :: a in args ==> SQ !in a
    requires var ws := Slices(sp, NUL, [], Build(sp, args));
             |ws| >= |args| && forall w :: w in ws ==> KeepsDoubleQuotes(w)
    ensures forall a :: a in args ==> Good(sp, a)
  {
    if args != [] {
      var a, rest := args[0], args[1..];
      assert args == [a] + rest;
      var ws, tail := Slices(sp, NUL, [], Build(sp, args)), Slices(sp, NUL, [], Build(sp, rest));
      if a == [] {
        EmptyFirst(sp, args);
        AllGood(sp, rest);
        GoodArgsSlice(sp, rest);
      } else if Good(sp, a) {
        FirstPiece(sp, a, Build(sp, rest));
        if |args| > 1 {
          assert ws == [Piece(sp, a)] + tail;
          AllGood(sp, rest);
        }
      } else {
        BareDoubleQuoteIsDropped(sp, args);
      }
    }
  }

  lemma EmptyFirst(sp: Spaces, args: seq<string>)
    requires args != [] && args[0] == []
    ensures Slices(sp, NUL, [], Build(sp, args)) == Slices(sp, NUL, [], Build(sp, args[1..]))
  {
    if |args| > 1 {
      var rest := Build(sp, args[1..]);
      assert Build(sp, args) == [' '] + rest;
      assert ([' '] + rest)[1..] == rest;
    }
  }

  /** Exactly when quoting and tokenizing round-trip, for every list of arguments. */
  lemma RoundTripExactlyWhen(sp: Spaces, args: seq<string>)
    ensures Parsed(sp, Build(sp, args)) == args <==> forall a :: a in args ==> Good(sp, a)
  {
    var line := Build(sp, args);
    var ws := Slices(sp, NUL, [], line);
    if Parsed(sp, line) == args {
      SlicesKeepQuotes(sp, NUL, [], line, DQ);
      BuildKeepsDoubleQuotes(sp, args);
      NoneDropped(ws);
      forall a | a in args ensures SQ !in a {
        var i :| 0 <= i < |args| && args[i] == a;
        assert Parsed(sp, line)[i] == Unquoted(ws[i]);
        UnquotedCounts(ws[i]);
      }
      AllGood(sp, args);
    } else if forall a :: a in args ==> Good(sp, a) {
      RoundTrip(sp, args);
    }
  }
}
