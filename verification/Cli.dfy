/** The interactive client of bin/main.c: tokens on the C heap, the command vector that owns
    them, and whole sessions. */
module Cli {
  import opened Wrappers
  import opened Shell
  import opened ShellCode

  /** A pointer; 0 is NULL. */
  type Ptr = int

  /** Live strings and live pointer vectors. Allocation never fails. Every block gets a new
      address, and `freed` counts the calls of free that released one. */
  class Heap {
    var strings: map<Ptr, string>
    var vectors: map<Ptr, seq<Ptr>>
    var next: Ptr
    var freed: nat

    ghost predicate Valid()
      reads this
    {
      && next > 0
      && (forall p :: p in strings ==> 0 < p < next)
      && (forall p :: p in vectors ==> 0 < p < next && p !in strings)
      && freed + |strings| + |vectors| == next - 1
    }

    constructor ()
      ensures Valid() && strings == map[] && vectors == map[] && freed == 0
    {
      strings, vectors, next, freed := map[], map[], 1, 0;
    }

    method NewString(text: string) returns (p: Ptr)
      requires Valid()
      modifies this
      ensures Valid() && p == old(next) && next == p + 1 && freed == old(freed)
      ensures p !in old(strings) && strings == old(strings)[p := text] && vectors == old(vectors)
    {
      p := next;
      next, strings := next + 1, strings[p := text];
    }

    /** `calloc(n, sizeof(char *))` */
    method NewVector(n: nat) returns (v: Ptr)
      requires Valid()
      modifies this
      ensures Valid() && v == old(next) && next == v + 1 && freed == old(freed)
      ensures v !in old(vectors) && vectors == old(vectors)[v := Nulls(n)] && strings == old(strings)
    {
      v := next;
      next, vectors := next + 1, vectors[v := Nulls(n)];
    }

    method Store(v: Ptr, i: nat, p: Ptr)
      requires Valid() && v in vectors && i < |vectors[v]|
      modifies this`vectors
      ensures Valid() && vectors == old(vectors)[v := old(vectors)[v][i := p]]
    {
      vectors := vectors[v := vectors[v][i := p]];
    }

    /** Freeing a block that is not live would be an error of the program. */
    method FreeString(p: Ptr)
      requires Valid() && p in strings
      modifies this
      ensures Valid() && strings == old(strings) - {p} && vectors == old(vectors)
      ensures next == old(next) && freed == old(freed) + 1
    {
      RemoveOne(strings, p);
      strings, freed := strings - {p}, freed + 1;
    }

    method FreeVector(v: Ptr)
      requires Valid() && v in vectors
      modifies this
      ensures Valid() && vectors == old(vectors) - {v} && strings == old(strings)
      ensures next == old(next) && freed == old(freed) + 1
    {
      RemoveOne(vectors, v);
      vectors, freed := vectors - {v}, freed + 1;
    }
  }

  /** What calloc leaves in a vector. */
  function Nulls(n: nat): (v: seq<Ptr>)
    ensures |v| == n
  {
    seq(n, _ => 0)
  }

  lemma RemoveOne<T>(m: map<Ptr, T>, p: Ptr)
    requires p in m
    ensures |m - {p}| == |m| - 1
  {
    assert m == (m - {p})[p := m[p]];
  }

  /** `texts` in consecutive blocks from `base` on. */
  function Blocks(base: Ptr, texts: seq<string>): map<Ptr, string> {
    if texts == [] then map[]
    else Blocks(base, texts[..|texts| - 1])[base + |texts| - 1 := texts[|texts| - 1]]
  }

  function Addresses(base: Ptr, n: nat): seq<Ptr> {
    seq(n, i => base + i)
  }

  /** With `done` sliced off, `last` the start of the current token and `quote` open at `ptr`,
      the slices `ws` of the line are still to be completed. */
  ghost predicate Slicing(sp: Spaces, line: string, ws: seq<string>, done: seq<string>, last: nat, ptr: nat, q: char) {
    last <= ptr <= |line| && ws == done + Slices(sp, q, line[last..ptr], line[ptr..])
  }

  /** Reading one character: a token and its separator are done, or the token goes on. */
  lemma SliceAt(sp: Spaces, s: string, ws: seq<string>, done: seq<string>, last: nat, ptr: nat, q: char)
    requires Slicing(sp, s, ws, done, last, ptr, q) && ptr < |s|
    ensures q == NUL && s[ptr] in sp ==>
              Slicing(sp, s, ws, if last == ptr then done else done + [s[last..ptr]], ptr + 1, ptr + 1, NUL)
    ensures !(q == NUL && s[ptr] in sp) ==> Slicing(sp, s, ws, done, last, ptr + 1, Next(q, s[ptr]))
  {
    assert s[ptr..][0] == s[ptr];
    assert s[ptr..][1..] == s[ptr + 1..];
    assert s[last..ptr] + [s[ptr]] == s[last..ptr + 1];
    assert s[ptr + 1..ptr + 1] == [];
  }

  lemma {:induction false} SkippedSpaces(sp: Spaces, s: string, ws: seq<string>, done: seq<string>, p: nat, q: nat)
    requires Slicing(sp, s, ws, done, p, p, NUL)
    requires p <= q <= |s| && forall i :: p <= i < q ==> s[i] in sp
    ensures Slicing(sp, s, ws, done, q, q, NUL)
    decreases q - p
  {
    hide Slicing;
    if p < q {
      SliceAt(sp, s, ws, done, p, p, NUL);
      SkippedSpaces(sp, s, ws, done, p + 1, q);
    }
  }

  lemma SlicingStarts(sp: Spaces, line: string)
    ensures Slicing(sp, line, Slices(sp, NUL, [], line), [], 0, 0, NUL)
  {
    assert line[0..] == line && line[0..0] == [];
  }

  lemma SlicingEnds(sp: Spaces, line: string, ws: seq<string>, done: seq<string>, last: nat, q: char)
    requires Slicing(sp, line, ws, done, last, |line|, q)
    ensures ws == if last == |line| then done else done + [line[last..|line|]]
  {}

  lemma SlicesDone(sp: Spaces, line: string, ws: seq<string>, done: seq<string>, last: nat, ptr: nat, q: char)
    requires Slicing(sp, line, ws, done, last, ptr, q)
    ensures done <= ws
  {}

  /** `strings'` and `vectors'` are what is live after the tokens `texts` have been stored in
      the first slots of `argv`, in new blocks from `base` on. */
  ghost predicate Stored(strings': map<Ptr, string>, vectors': map<Ptr, seq<Ptr>>,
                         strings: map<Ptr, string>, vectors: map<Ptr, seq<Ptr>>,
                         base: Ptr, argv: Ptr, texts: seq<string>)
  {
    && strings' == strings + Blocks(base, texts)
    && if texts == [] then vectors' == vectors
       else
         && argv in vectors && |texts| <= |vectors[argv]|
         && vectors' == vectors[argv := Addresses(base, |texts|) + vectors[argv][|texts|..]]
  }

  lemma StoredSnoc(strings': map<Ptr, string>, vectors': map<Ptr, seq<Ptr>>,
                   strings: map<Ptr, string>, vectors: map<Ptr, seq<Ptr>>,
                   base: Ptr, argv: Ptr, texts: seq<string>, t: string)
    requires Stored(strings', vectors', strings, vectors, base, argv, texts)
    requires argv in vectors && |texts| < |vectors[argv]|
    ensures var p := base + |texts|;
            && argv in vectors' && |vectors'[argv]| == |vectors[argv]|
            && Stored(strings'[p := t], vectors'[argv := vectors'[argv][|texts| := p]],
                      strings, vectors, base, argv, texts + [t])
  {
    var p, n := base + |texts|, |texts|;
    assert (texts + [t])[..n] == texts;
    assert strings'[p := t] == strings + Blocks(base, texts)[p := t];
    var old', new' := vectors[argv], vectors'[argv];
    assert new' == Addresses(base, n) + old'[n..];
    assert new'[n := p] == Addresses(base, n + 1) + old'[n + 1..];
  }

  lemma UnquotesPrefix(ws: seq<string>, w: string)
    ensures Unquotes(ws + [w]) == Unquotes(ws) + [Unquoted(w)]
  {}

  /** A new string in the next slot of `argv`. */
  method StoreString(heap: Heap, argv: Ptr, i: nat, text: string,
                     ghost strings: map<Ptr, string>, ghost vectors: map<Ptr, seq<Ptr>>, ghost base: Ptr,
                     ghost texts: seq<string>)
    requires heap.Valid() && i == |texts| && argv in vectors && i < |vectors[argv]|
    requires heap.next == base + i
    requires Stored(heap.strings, heap.vectors, strings, vectors, base, argv, texts)
    modifies heap
    ensures heap.Valid() && heap.freed == old(heap.freed) && heap.next == base + i + 1
    ensures Stored(heap.strings, heap.vectors, strings, vectors, base, argv, texts + [text])
  {
    hide Stored, Heap.Valid;
    StoredSnoc(heap.strings, heap.vectors, strings, vectors, base, argv, texts, text);
    var p := heap.NewString(text);
    heap.Store(argv, i, p);
  }

  /** With the slices `done` of `ws` stored as far as there is room: what is live, and no
      buffer overrun so far. `strings`, `vectors`, `base` and `freed` are from the start. */
  ghost predicate Filling(heap: Heap, argc: nat, argv: Ptr, ws: seq<string>, done: seq<string>,
                          strings: map<Ptr, string>, vectors: map<Ptr, seq<Ptr>>, base: Ptr, freed: nat)
    reads heap
  {
    var k := Min(argc, |done|);
    && heap.Valid() && heap.freed == freed && heap.next == base + k
    && Stored(heap.strings, heap.vectors, strings, vectors, base, argv, Unquotes(done)[..k])
    && done <= ws && !AnyOverruns(ws[..k])
  }

  lemma FillingStarts(heap: Heap, argc: nat, argv: Ptr, ws: seq<string>)
    requires heap.Valid()
    ensures Filling(heap, argc, argv, ws, [], heap.strings, heap.vectors, heap.next, heap.freed)
  {
    assert Unquotes([])[..0] == [];
    NothingStored(heap.strings, heap.vectors, heap.next, argv);
  }

  /** One more slice, stored if there is room. */
  lemma OneMoreSlice(ws: seq<string>, argc: nat, done: seq<string>, w: string)
    requires done + [w] <= ws
    requires !AnyOverruns(ws[..Min(argc, |done|)])
    ensures AnyOverruns(ws[..Min(argc, |done| + 1)]) <==> |done| < argc && Overruns(w)
    ensures |done| < argc && Overruns(w) ==> AnyOverruns(ws[..Min(argc, |ws|)])
  {
    hide Overruns;
    var k := |done|;
    assert ws[k] == (done + [w])[k];
    if k < argc {
      assert ws[..k + 1] == ws[..k] + [w];
      assert forall v :: v in ws[..k + 1] ==> v in ws[..Min(argc, |ws|)];
    }
  }

  /** One `argv[count] = unquote(...)`, taken only while there is room. A write past the
      string's block leaves the heap undefined: nothing is promised then. */
  method StoreToken(heap: Heap, line: string, last: nat, ptr: nat, argc: nat, argv: Ptr, count: nat,
                    ghost strings: map<Ptr, string>, ghost vectors: map<Ptr, seq<Ptr>>, ghost base: Ptr,
                    ghost freed: nat, ghost ws: seq<string>, ghost done: seq<string>)
    returns (overrun: bool)
    requires last <= ptr <= |line| && count == |done| && done + [line[last..ptr]] <= ws
    requires argc > 0 ==> argv in vectors && argc <= |vectors[argv]|
    requires Filling(heap, argc, argv, ws, done, strings, vectors, base, freed)
    modifies heap
    ensures overrun <==> count < argc && Overruns(line[last..ptr])
    ensures overrun ==> AnyOverruns(ws[..Min(argc, |ws|)])
    ensures !overrun ==> Filling(heap, argc, argv, ws, done + [line[last..ptr]], strings, vectors, base, freed)
  {
    hide Stored, Overruns, AnyOverruns, Unquoted, Heap.Valid;
    ghost var w := line[last..ptr];
    ghost var texts := Unquotes(done);
    UnquotesPrefix(done, w);
    OneMoreSlice(ws, argc, done, w);
    if count < argc {
      assert texts[..count] == texts;
      var result, text;
      result, text, overrun := Unquote(line[last..], ptr - last);
      assert line[last..][..ptr - last] == w;
      if overrun {
        return;
      }
      StoreString(heap, argv, count, text, strings, vectors, base, texts);
      assert Unquotes(done + [w])[..count + 1] == texts + [text];
    } else {
      overrun := false;
      assert Unquotes(done + [w])[..argc] == texts[..argc];
    }
  }

  /** A separator: the token before it is stored, and the next one starts after the spaces. */
  method EndToken(sp: Spaces, heap: Heap, line: string, last: nat, ptr: nat, argc: nat, argv: Ptr, count: nat,
                  ghost strings: map<Ptr, string>, ghost vectors: map<Ptr, seq<Ptr>>, ghost base: Ptr,
                  ghost freed: nat, ghost ws: seq<string>, ghost done: seq<string>)
    returns (overrun: bool, next: nat)
    requires CString(line) && last < ptr < |line| && line[ptr] in sp && count == |done|
    requires argc > 0 ==> argv in vectors && argc <= |vectors[argv]|
    requires Slicing(sp, line, ws, done, last, ptr, NUL)
    requires Filling(heap, argc, argv, ws, done, strings, vectors, base, freed)
    modifies heap
    ensures overrun ==> AnyOverruns(ws[..Min(argc, |ws|)])
    ensures ptr < next <= |line| && Deref(line, next) !in sp
    ensures !overrun ==>
              var done' := done + [line[last..ptr]];
              && Slicing(sp, line, ws, done', next, next, NUL)
              && Filling(heap, argc, argv, ws, done', strings, vectors, base, freed)
  {
    hide Slicing, Filling, Overruns, AnyOverruns, CString;
    ghost var done' := done + [line[last..ptr]];
    SliceAt(sp, line, ws, done, last, ptr, NUL);
    SlicesDone(sp, line, ws, done', ptr + 1, ptr + 1, NUL);
    overrun := StoreToken(heap, line, last, ptr, argc, argv, count, strings, vectors, base, freed, ws, done);
    next := SkipSpaces(sp, line, ptr);
    SkippedSpaces(sp, line, ws, done', ptr + 1, next);
  }

  /** `shell_parse`: the number of tokens whatever `argc`; the first `argc` of them, unquoted,
      in new blocks of the heap and in the first slots of `argv`; nothing else. All this unless
      a buffer is overrun, which takes a line that does it and room for its last token. */
  method ShellParse(sp: Spaces, heap: Heap, line: string, argc: nat, argv: Ptr) returns (n: nat, overrun: bool)
    requires CString(line) && heap.Valid()
    requires argc > 0 ==> argv in heap.vectors && argc <= |heap.vectors[argv]|
    modifies heap
    ensures overrun <==> LineOverruns(sp, line) && argc >= |Parsed(sp, line)|
    ensures !overrun ==>
              && heap.Valid() && heap.freed == old(heap.freed)
              && n == |Parsed(sp, line)|
              && heap.next == old(heap.next) + Min(argc, n)
              && Stored(heap.strings, heap.vectors, old(heap.strings), old(heap.vectors), old(heap.next), argv,
                        Parsed(sp, line)[..Min(argc, n)])
  {
    hide Stored, Slices, Slicing, Filling, Overruns, AnyOverruns, LineOverruns, Parsed, Heap.Valid, CString;
    ghost var strings, vectors, base, freed := heap.strings, heap.vectors, heap.next, heap.freed;
    ghost var ws := Slices(sp, NUL, [], line);
    ghost var done: seq<string> := [];
    SlicingStarts(sp, line);
    FillingStarts(heap, argc, argv, ws);
    OverrunNeedsRoom(sp, line, argc);
    var quote, count := NUL, 0;
    n, overrun := 0, false;
    var ptr := SkipSpaces(sp, line, 0);
    var last := ptr;
    SkippedSpaces(sp, line, ws, done, 0, ptr);
    while Deref(line, ptr) != NUL
      invariant last <= ptr <= |line| && count == |done|
      invariant quote != NUL ==> last < ptr
      invariant last == ptr ==> Deref(line, ptr) !in sp
      invariant Slicing(sp, line, ws, done, last, ptr, quote)
      invariant !overrun && Filling(heap, argc, argv, ws, done, strings, vectors, base, freed)
      decreases |line| - ptr
    {
      SliceAt(sp, line, ws, done, last, ptr, quote);
      if line[ptr] == DQ || line[ptr] == SQ {
        if quote != NUL {
          if quote == line[ptr] {
            quote := NUL;
          }
        } else {
          quote := line[ptr];
        }
        ptr := ptr + 1;
      } else if quote == NUL && line[ptr] in sp {
        ghost var w := line[last..ptr];
        overrun, last :=
          EndToken(sp, heap, line, last, ptr, argc, argv, count, strings, vectors, base, freed, ws, done);
        if overrun {
          return;
        }
        done := done + [w];
        ptr, count := last, count + 1;
      } else {
        ptr := ptr + 1;
      }
    }
    NulEndsTheLine(line, ptr);
    SlicingEnds(sp, line, ws, done, last, quote);
    if ptr - last > 0 {
      overrun := StoreToken(heap, line, last, ptr, argc, argv, count, strings, vectors, base, freed, ws, done);
      if overrun {
        return;
      }
      done := done + [line[last..ptr]];
      count := count + 1;
    }
    n := count;
    FillingEnds(sp, heap, line, argc, argv, strings, vectors, base, freed);
  }

  /** All slices done. */
  lemma FillingEnds(sp: Spaces, heap: Heap, line: string, argc: nat, argv: Ptr,
                    strings: map<Ptr, string>, vectors: map<Ptr, seq<Ptr>>, base: Ptr, freed: nat)
    requires var ws := Slices(sp, NUL, [], line);
             Filling(heap, argc, argv, ws, ws, strings, vectors, base, freed)
    ensures var texts := Parsed(sp, line); var k := Min(argc, |texts|);
            && |texts| == |Slices(sp, NUL, [], line)|
            && heap.Valid() && heap.freed == freed && heap.next == base + k
            && Stored(heap.strings, heap.vectors, strings, vectors, base, argv, texts[..k])
            && !(LineOverruns(sp, line) && argc >= |texts|)
  {
    hide Stored, AnyOverruns, LineOverruns, Heap.Valid;
    OverrunNeedsRoom(sp, line, argc);
  }

  /** An overrun among the first `argc` tokens is one of the line, with room for the last. */
  lemma OverrunNeedsRoom(sp: Spaces, line: string, argc: nat)
    ensures var ws := Slices(sp, NUL, [], line);
            && Parsed(sp, line) == Unquotes(ws) && |Parsed(sp, line)| == |ws|
            && (AnyOverruns(ws[..Min(argc, |ws|)]) <==> LineOverruns(sp, line) && argc >= |ws|)
  {
    hide Overruns, AnyOverruns;
    var ws := Slices(sp, NUL, [], line);
    OnlyTheLastOverruns(sp, line, Min(argc, |ws|));
    OnlyTheLastOverruns(sp, line, |ws|);
    assert ws[..|ws|] == ws;
  }

  lemma NothingStored(strings: map<Ptr, string>, vectors: map<Ptr, seq<Ptr>>, base: Ptr, argv: Ptr)
    ensures Stored(strings, vectors, strings, vectors, base, argv, [])
  {
    assert Blocks(base, []) == map[];
  }

  lemma NulEndsTheLine(line: string, ptr: nat)
    requires CString(line) && ptr <= |line| && Deref(line, ptr) == NUL
    ensures ptr == |line|
  {
    assert forall i :: 0 <= i < |line| ==> line[i] in line;
  }

  // ---------------------------------------------------------------- ownership

  function Members(v: seq<Ptr>): set<Ptr> {
    set p | p in v
  }

  /** A NULL-terminated vector of `n` distinct live strings. */
  ghost predicate StringVector(strings: map<Ptr, string>, v: seq<Ptr>, n: nat) {
    && n < |v| && v[n] == 0
    && (forall i :: 0 <= i < n ==> v[i] in strings && v[i] > 0)
    && (forall i, j :: 0 <= i < j < n ==> v[i] != v[j])
  }

  lemma RemoveMember(strings: map<Ptr, string>, v: seq<Ptr>, n: nat, i: nat)
    requires StringVector(strings, v, n) && i < n
    ensures v[i] != 0 && v[i] in strings - Members(v[..i])
    ensures strings - Members(v[..i + 1]) == strings - Members(v[..i]) - {v[i]}
  {
    assert v[..i + 1] == v[..i] + [v[i]];
  }

  method StrFreev(heap: Heap, strv: Ptr, ghost n: nat)
    requires heap.Valid()
    requires strv != 0 ==> strv in heap.vectors && StringVector(heap.strings, heap.vectors[strv], n)
    modifies heap
    ensures heap.Valid() && heap.next == old(heap.next)
    ensures strv == 0 ==> heap.strings == old(heap.strings) && heap.vectors == old(heap.vectors)
    ensures strv == 0 ==> heap.freed == old(heap.freed)
    ensures strv != 0 ==>
              && heap.strings == old(heap.strings) - Members(old(heap.vectors)[strv][..n])
              && heap.vectors == old(heap.vectors) - {strv}
              && heap.freed == old(heap.freed) + n + 1
  {
    hide Heap.Valid, Members, StringVector;
    if strv != 0 {
      ghost var v := heap.vectors[strv];
      ghost var strings := heap.strings;
      var i := 0;
      EndsWithNull(strings, v, n);
      while heap.vectors[strv][i] != 0
        invariant 0 <= i <= n && heap.Valid() && heap.next == old(heap.next)
        invariant heap.vectors == old(heap.vectors)
        invariant heap.strings == strings - Members(v[..i])
        invariant heap.freed == old(heap.freed) + i
        decreases n - i
      {
        RemoveMember(strings, v, n, i);
        heap.FreeString(heap.vectors[strv][i]);
        i := i + 1;
      }
      heap.FreeVector(strv);
    }
  }

  lemma EndsWithNull(strings: map<Ptr, string>, v: seq<Ptr>, n: nat)
    requires StringVector(strings, v, n)
    ensures n < |v| && v[n] == 0 && forall i :: 0 <= i < n ==> v[i] != 0
    ensures strings - Members(v[..0]) == strings
  {}

  lemma {:induction false} BlocksAre(base: Ptr, texts: seq<string>)
    ensures var at := Addresses(base, |texts|);
            && (forall i :: 0 <= i < |texts| ==> at[i] in Blocks(base, texts) && Blocks(base, texts)[at[i]] == texts[i])
            && Blocks(base, texts).Keys == Members(at)
  {
    var at := Addresses(base, |texts|);
    if texts != [] {
      var n := |texts| - 1;
      BlocksAre(base, texts[..n]);
      var before := Addresses(base, n);
      assert at == before + [base + n];
      forall i | 0 <= i < |texts|
        ensures at[i] in Blocks(base, texts) && Blocks(base, texts)[at[i]] == texts[i]
      {
        if i < n {
          assert at[i] == before[i] && before[i] != base + n;
        }
      }
    } else {
      assert at == [];
    }
  }

  lemma TakeSnoc(texts: seq<string>, i: nat)
    requires i < |texts|
    ensures texts[..i + 1] == texts[..i] + [texts[i]]
  {}

  /** A new NULL-terminated vector of copies: the loop of slice_strdup. */
  method CopyStrings(heap: Heap, texts: seq<string>) returns (slice: Ptr)
    requires heap.Valid()
    modifies heap
    ensures heap.Valid() && heap.freed == old(heap.freed)
    ensures slice == old(heap.next)
    ensures heap.strings == old(heap.strings) + Blocks(slice + 1, texts)
    ensures heap.vectors == old(heap.vectors)[slice := Addresses(slice + 1, |texts|) + [0]]
  {
    hide Heap.Valid, Stored, Blocks, Addresses, Nulls;
    slice := heap.NewVector(|texts| + 1);
    ghost var strings, vectors, base := heap.strings, heap.vectors, heap.next;
    NothingStored(strings, vectors, base, slice);
    assert texts[..0] == [];
    for i := 0 to |texts|
      invariant heap.Valid() && heap.freed == old(heap.freed) && heap.next == base + i
      invariant Stored(heap.strings, heap.vectors, strings, vectors, base, slice, texts[..i])
    {
      TakeSnoc(texts, i);
      StoreString(heap, slice, i, texts[i], strings, vectors, base, texts[..i]);
    }
    assert texts[..|texts|] == texts;
    CopiedAll(heap.strings, heap.vectors, strings, vectors, old(heap.vectors), base, slice, texts);
  }

  /** `slice_strdup(argv, start, end)`: NULL for an empty range. */
  method SliceStrdup(heap: Heap, argv: seq<string>, start: nat, end: nat) returns (slice: Ptr)
    requires heap.Valid() && end <= |argv|
    modifies heap
    ensures heap.Valid() && heap.freed == old(heap.freed)
    ensures end <= start ==> slice == 0 && heap.strings == old(heap.strings) && heap.vectors == old(heap.vectors)
    ensures start < end ==>
              var texts := argv[start..end];
              && slice == old(heap.next)
              && heap.strings == old(heap.strings) + Blocks(slice + 1, texts)
              && heap.vectors == old(heap.vectors)[slice := Addresses(slice + 1, |texts|) + [0]]
  {
    hide Heap.Valid, Blocks, Addresses;
    slice := 0;
    if end > start {
      slice := CopyStrings(heap, argv[start..end]);
    }
  }

  lemma StoredNone(strings': map<Ptr, string>, vectors': map<Ptr, seq<Ptr>>,
                   strings: map<Ptr, string>, vectors: map<Ptr, seq<Ptr>>, base: Ptr, argv: Ptr)
    requires Stored(strings', vectors', strings, vectors, base, argv, [])
    ensures strings' == strings && vectors' == vectors
  {}

  /** A vector one slot longer than the tokens ends up as their addresses and a NULL. */
  lemma StoredAll(strings': map<Ptr, string>, vectors': map<Ptr, seq<Ptr>>,
                  strings: map<Ptr, string>, vectors: map<Ptr, seq<Ptr>>,
                  base: Ptr, argv: Ptr, texts: seq<string>)
    requires Stored(strings', vectors', strings, vectors, base, argv, texts)
    requires argv in vectors && vectors[argv] == Nulls(|texts| + 1)
    ensures strings' == strings + Blocks(base, texts)
    ensures vectors' == vectors[argv := Addresses(base, |texts|) + [0]]
  {
    assert vectors[argv][|texts|..] == [0];
    if texts == [] {
      assert Addresses(base, 0) + [0] == vectors[argv];
    }
  }

  /** The client owns its argument vector, the strings in it, and nothing else is live. */
  ghost predicate Owned(strings: map<Ptr, string>, vectors: map<Ptr, seq<Ptr>>, argv: Ptr, argc: nat) {
    if argv == 0 then argc == 0 && strings == map[] && vectors == map[]
    else
      && vectors.Keys == {argv} && |vectors[argv]| == argc + 1
      && StringVector(strings, vectors[argv], argc)
      && strings.Keys == Members(vectors[argv][..argc])
  }

  /** The arguments as strings. */
  ghost function ArgsOf(strings: map<Ptr, string>, vectors: map<Ptr, seq<Ptr>>, argv: Ptr, argc: nat): seq<string>
    requires Owned(strings, vectors, argv, argc)
  {
    seq(argc, i requires 0 <= i < argc => strings[vectors[argv][i]])
  }

  lemma OwnedBlocks(v: Ptr, base: Ptr, texts: seq<string>)
    requires v > 0 && base > 0
    ensures var strings, vectors := Blocks(base, texts), map[v := Addresses(base, |texts|) + [0]];
            Owned(strings, vectors, v, |texts|) && ArgsOf(strings, vectors, v, |texts|) == texts
  {
    var at := Addresses(base, |texts|);
    var vec := at + [0];
    BlocksAre(base, texts);
    assert vec[..|texts|] == at;
    forall i | 0 <= i < |texts| ensures vec[i] in Blocks(base, texts) && vec[i] > 0 {
      assert vec[i] == at[i];
    }
    forall i, j | 0 <= i < j < |texts| ensures vec[i] != vec[j] {
      assert vec[i] == at[i] && vec[j] == at[j];
    }
    assert StringVector(Blocks(base, texts), vec, |texts|);
  }

  lemma OwnedTokens(strings': map<Ptr, string>, vectors': map<Ptr, seq<Ptr>>,
                    strings: map<Ptr, string>, vectors: map<Ptr, seq<Ptr>>,
                    base: Ptr, argv: Ptr, texts: seq<string>)
    requires Stored(strings', vectors', strings, vectors, base, argv, texts)
    requires strings == map[] && vectors == map[argv := Nulls(|texts| + 1)] && argv > 0 && base > 0
    ensures Owned(strings', vectors', argv, |texts|) && ArgsOf(strings', vectors', argv, |texts|) == texts
  {
    hide Stored, Owned, ArgsOf, Blocks, Addresses, Nulls;
    StoredAll(strings', vectors', strings, vectors, base, argv, texts);
    OwnedBlocks(argv, base, texts);
    assert map[] + Blocks(base, texts) == Blocks(base, texts);
    assert vectors' == map[argv := Addresses(base, |texts|) + [0]];
  }

  lemma OwnsNothing(strings: map<Ptr, string>, vectors: map<Ptr, seq<Ptr>>)
    requires strings == map[] && vectors == map[]
    ensures Owned(strings, vectors, 0, 0) && ArgsOf(strings, vectors, 0, 0) == []
  {}

  lemma OwnsNothingYet(heap: Heap, argc: nat)
    requires heap.Valid() && Owned(heap.strings, heap.vectors, 0, argc)
    ensures heap.strings == map[] && heap.vectors == map[] && argc == 0 && heap.next > 0
  {}

  lemma OwnedFrees(strings: map<Ptr, string>, vectors: map<Ptr, seq<Ptr>>, argv: Ptr, argc: nat)
    requires Owned(strings, vectors, argv, argc) && argv != 0
    ensures argv in vectors && StringVector(strings, vectors[argv], argc)
    ensures strings - Members(vectors[argv][..argc]) == map[] && vectors - {argv} == map[]
  {}

  /** StoredAll for a vector that is itself new. */
  lemma CopiedAll(strings': map<Ptr, string>, vectors': map<Ptr, seq<Ptr>>,
                  strings: map<Ptr, string>, vectors: map<Ptr, seq<Ptr>>,
                  before: map<Ptr, seq<Ptr>>, base: Ptr, slice: Ptr, texts: seq<string>)
    requires Stored(strings', vectors', strings, vectors, base, slice, texts)
    requires vectors == before[slice := Nulls(|texts| + 1)] && base == slice + 1
    ensures strings' == strings + Blocks(slice + 1, texts)
    ensures vectors' == before[slice := Addresses(slice + 1, |texts|) + [0]]
  {
    hide Stored, Blocks, Addresses, Nulls;
    StoredAll(strings', vectors', strings, vectors, base, slice, texts);
  }

  lemma OwnedCopies(strings': map<Ptr, string>, vectors': map<Ptr, seq<Ptr>>,
                    strings: map<Ptr, string>, vectors: map<Ptr, seq<Ptr>>, slice: Ptr, texts: seq<string>)
    requires slice > 0 && strings == map[] && vectors == map[]
    requires strings' == strings + Blocks(slice + 1, texts)
    requires vectors' == vectors[slice := Addresses(slice + 1, |texts|) + [0]]
    ensures Owned(strings', vectors', slice, |texts|) && ArgsOf(strings', vectors', slice, |texts|) == texts
  {
    hide Owned, ArgsOf, Blocks, Addresses;
    OwnedBlocks(slice, slice + 1, texts);
    assert map[] + Blocks(slice + 1, texts) == Blocks(slice + 1, texts);
  }

  /** The second half of cli_parse_command: a new vector, filled by the second parse. */
  method FillVector(sp: Spaces, heap: Heap, command: string, argc: nat)
    returns (argv: Ptr, ret: nat, overrun: bool)
    requires heap.Valid() && heap.strings == map[] && heap.vectors == map[]
    requires CString(command) && argc == |Parsed(sp, command)|
    modifies heap
    ensures overrun <==> LineOverruns(sp, command)
    ensures !overrun ==>
              && heap.Valid() && argv != 0 && ret == argc
              && Owned(heap.strings, heap.vectors, argv, argc)
              && ArgsOf(heap.strings, heap.vectors, argv, argc) == Parsed(sp, command)
  {
    assert heap.next > 0;
    hide Owned, Heap.Valid, Nulls, Parsed, Stored, ArgsOf, LineOverruns, CString;
    argv := heap.NewVector(argc + 1);
    ghost var strings, vectors, base := heap.strings, heap.vectors, heap.next;
    ret, overrun := ShellParse(sp, heap, command, argc, argv);
    if overrun {
      return;
    }
    ghost var texts := Parsed(sp, command);
    assert texts[..argc] == texts;
    OwnedTokens(heap.strings, heap.vectors, strings, vectors, base, argv, texts);
  }

  lemma OverrunsHaveTokens(sp: Spaces, line: string)
    ensures LineOverruns(sp, line) ==> |Parsed(sp, line)| > 0
  {}

  /** `found` is the first command with that name, if there is one. */
  ghost predicate LooksUp(table: seq<string>, name: string, found: Option<nat>) {
    match found
    case Some(i) => i < |table| && table[i] == name && name !in table[..i]
    case None => name !in table
  }

  /** `struct cli` */
  class Context {
    const heap: Heap
    var argv: Ptr
    var argc: nat

    ghost predicate Valid()
      reads this, heap
    {
      heap.Valid() && Owned(heap.strings, heap.vectors, argv, argc)
    }

    ghost function Args(): seq<string>
      reads this, heap
      requires Valid()
    {
      ArgsOf(heap.strings, heap.vectors, argv, argc)
    }

    constructor (heap: Heap)
      requires heap.Valid() && heap.strings == map[] && heap.vectors == map[]
      ensures Valid() && this.heap == heap && argv == 0
    {
      this.heap, argv, argc := heap, 0, 0;
    }

    /** The command-line arguments left after the options. */
    method TakeArguments(args: seq<string>, optind: nat)
      requires Valid() && argv == 0
      modifies this, heap
      ensures Valid() && Args() == if optind < |args| then args[optind..] else []
      ensures argc == |Args()|
    {
      hide Owned, Heap.Valid, Blocks, Addresses, ArgsOf, Nulls;
      OwnsNothingYet(heap, argc);
      ghost var strings, vectors := heap.strings, heap.vectors;
      if |args| > optind {
        ghost var texts := args[optind..|args|];
        var slice := SliceStrdup(heap, args, optind, |args|);
        OwnedCopies(heap.strings, heap.vectors, strings, vectors, slice, texts);
        argv, argc := slice, |args| - optind;
        assert texts == args[optind..];
      } else {
        OwnsNothing(heap.strings, heap.vectors);
      }
    }

    /** The old vector and its strings are released, the new one holds the tokens - unless the
        line overruns a buffer, which only the second parse can do. */
    method ParseCommand(sp: Spaces, command: string) returns (ret: int, overrun: bool)
      requires Valid() && CString(command)
      modifies this, heap
      ensures overrun <==> LineOverruns(sp, command)
      ensures !overrun ==> Valid() && argv != 0 && ret == argc && Args() == Parsed(sp, command)
    {
      Release();
      OverrunsHaveTokens(sp, command);
      hide Owned, Heap.Valid, Parsed, Stored, ArgsOf, LineOverruns, CString;
      argv, argc := 0, 0;
      var n, o := ShellParse(sp, heap, command, 0, 0);
      StoredNone(heap.strings, heap.vectors, map[], map[], heap.next, 0);
      argc := n;
      argv, ret, overrun := FillVector(sp, heap, command, n);
    }

    /** `strfreev(cli->argv)` */
    method Release()
      requires Valid()
      modifies heap
      ensures heap.Valid() && heap.strings == map[] && heap.vectors == map[]
    {
      hide Heap.Valid, Members, StringVector;
      if argv != 0 {
        OwnedFrees(heap.strings, heap.vectors, argv, argc);
      }
      StrFreev(heap, argv, argc);
    }

    /** `cli_exec`, as far as it looks at argv: the first command with that name. It reads a
        NULL where the name should be exactly when there is no argument; C leaves the comparison
        with it undefined, so nothing is promised about the outcome then. */
    method Exec(table: seq<string>) returns (found: Option<nat>, nullName: bool)
      requires Valid()
      ensures nullName <==> Args() == []
      ensures !nullName ==> LooksUp(table, Args()[0], found)
    {
      found, nullName := None, argv == 0 || heap.vectors[argv][0] == 0;
      if !nullName {
        var name := heap.strings[heap.vectors[argv][0]];
        for i := 0 to |table|
          invariant name !in table[..i]
        {
          if table[i] == name {
            return Some(i), nullName;
          }
        }
      }
    }

    /** `cli_free` */
    method Free()
      requires Valid()
      modifies heap
      ensures heap.Valid() && heap.strings == map[] && heap.vectors == map[]
      ensures heap.freed == heap.next - 1
    {
      Release();
    }
  }

  /** A line that makes the interactive loop run a command without a name. */
  predicate NullCommand(sp: Spaces, line: string) {
    line != [] && forall c :: c in line ==> c in sp
  }

  /** A single blank is such a line. */
  lemma BlankIsNullCommand(sp: Spaces)
    ensures NullCommand(sp, " ") && Parsed(sp, " ") == []
  {
    NoTokens(sp, NUL, [], " ");
  }

  /** A line after which C promises nothing: it overruns a buffer, or it has the program compare
      a NULL command name. */
  ghost predicate Breaks(sp: Spaces, line: string) {
    LineOverruns(sp, line) || NullCommand(sp, line)
  }

  /** What became of a line: an empty one is skipped, any other has its command looked up. */
  datatype Outcome = Skipped | Ran(command: nat) | NotFound

  /** The line's first token names the command that ran, if the table has it. */
  ghost predicate Answers(sp: Spaces, table: seq<string>, line: string, outcome: Outcome) {
    match outcome
    case Skipped => line == []
    case Ran(i) => line != [] && Parsed(sp, line) != [] && LooksUp(table, Parsed(sp, line)[0], Some(i))
    case NotFound => line != [] && Parsed(sp, line) != [] && LooksUp(table, Parsed(sp, line)[0], None)
  }

  /** One pass of the interactive loop. A command is run without a name exactly when the line is
      non-empty and all whitespace; any other line that overruns no buffer runs the command it
      names and leaves the client with its tokens. */
  method HandleLine(sp: Spaces, cli: Context, table: seq<string>, line: string)
    returns (outcome: Outcome, nullName: bool, overrun: bool)
    requires cli.Valid() && CString(line)
    modifies cli, cli.heap
    ensures overrun <==> LineOverruns(sp, line)
    ensures nullName <==> NullCommand(sp, line)
    ensures !overrun && !nullName ==>
              && cli.Valid() && (line != [] ==> cli.Args() == Parsed(sp, line))
              && Answers(sp, table, line, outcome)
  {
    hide LineOverruns, LooksUp;
    outcome, nullName, overrun := Skipped, false, false;
    OverrunsHaveTokens(sp, line);
    NoTokens(sp, NUL, [], line);
    if line != [] {
      var err;
      err, overrun := cli.ParseCommand(sp, line);
      if !overrun {
        var found;
        found, nullName := cli.Exec(table);
        outcome := match found case Some(i) => Ran(i) case None => NotFound;
      }
    }
  }

  /** The interactive loop, up to the first line that breaks it if there is one: `outcomes` are
      those of the lines before it. */
  method Interact(sp: Spaces, cli: Context, table: seq<string>, lines: seq<string>)
    returns (outcomes: seq<Outcome>, broken: bool)
    requires cli.Valid() && forall l :: l in lines ==> CString(l)
    modifies cli, cli.heap
    ensures |outcomes| <= |lines|
    ensures forall i :: 0 <= i < |outcomes| ==> !Breaks(sp, lines[i]) && Answers(sp, table, lines[i], outcomes[i])
    ensures if broken then |outcomes| < |lines| && Breaks(sp, lines[|outcomes|])
            else |outcomes| == |lines| && cli.Valid()
  {
    hide LineOverruns, NullCommand, CString, Answers, Context.Valid;
    outcomes, broken := [], false;
    for i := 0 to |lines|
      invariant cli.Valid() && |outcomes| == i
      invariant forall k :: 0 <= k < i ==> !Breaks(sp, lines[k]) && Answers(sp, table, lines[k], outcomes[k])
    {
      var outcome, nullName, overrun := HandleLine(sp, cli, table, lines[i]);
      if overrun || nullName {
        return outcomes, true;
      }
      outcomes := outcomes + [outcome];
    }
  }

  /** A whole session of the client, over any command line and any input lines: the one command
      of the command line, or those of the lines, run in order. Unless a line breaks the loop,
      every block the session ever allocated has been freed exactly once when it ends. */
  method Session(sp: Spaces, table: seq<string>, args: seq<string>, optind: nat, lines: seq<string>)
    returns (heap: Heap, found: Option<nat>, outcomes: seq<Outcome>, broken: bool)
    requires forall l :: l in lines ==> CString(l)
    ensures fresh(heap)
    ensures broken <==> |args| <= optind && exists l :: l in lines && Breaks(sp, l)
    ensures optind < |args| ==> outcomes == [] && LooksUp(table, args[optind], found)
    ensures |args| <= optind ==>
              && (if broken then |outcomes| < |lines| && Breaks(sp, lines[|outcomes|]) else |outcomes| == |lines|)
              && forall i :: 0 <= i < |outcomes| ==> Answers(sp, table, lines[i], outcomes[i])
    ensures !broken ==>
              && heap.Valid() && heap.strings == map[] && heap.vectors == map[]
              && heap.freed == heap.next - 1
  {
    hide Breaks, CString, Answers, LooksUp;
    heap := new Heap();
    var cli := new Context(heap);
    cli.TakeArguments(args, optind);
    found, outcomes, broken := None, [], false;
    if cli.argc == 0 {
      outcomes, broken := Interact(sp, cli, table, lines);
      if broken {
        return;
      }
    } else {
      var nullName;
      found, nullName := cli.Exec(table);
      assert !nullName && cli.Args()[0] == args[optind];
    }
    cli.Free();
  }

  /** Lines that are empty or not all whitespace, and whose quotes are balanced or of one kind,
      never end a session early. */
  lemma CleanLines(sp: Spaces, lines: seq<string>)
    requires forall l :: l in lines ==> (Balanced(l) || OneKind(l)) && !NullCommand(sp, l)
    ensures forall l :: l in lines ==> !Breaks(sp, l)
  {
    hide LineOverruns, NullCommand, Balanced, OneKind;
    forall l | l in lines ensures !Breaks(sp, l) {
      LineOverrunsExactlyWhen(sp, l);
    }
  }
}
