/** The readline generator for command names in bin/main.c, which keeps its place in static
    variables between calls. */
module Completion {
  import opened Wrappers

  /** `strncmp(a, b, n) == 0` on C strings. */
  predicate SameStart(a: string, b: string, n: nat)
    decreases n
  {
    if n == 0 then true
    else if a == [] || b == [] then a == b
    else a[0] == b[0] && SameStart(a[1..], b[1..], n - 1)
  }

  /** Comparing the length of `text` is testing for a prefix. */
  lemma {:induction false} SameStartIsPrefix(name: string, text: string)
    ensures SameStart(name, text, |text|) <==> text <= name
    decreases text
  {
    if text != [] && name != [] {
      SameStartIsPrefix(name[1..], text[1..]);
      if name[0] == text[0] && text[1..] <= name[1..] {
        assert text == [text[0]] + text[1..] && name == [name[0]] + name[1..];
      }
    }
  }

  /** The names that have `text` as a prefix, in table order. */
  function Matches(names: seq<string>, text: string): seq<string> {
    if names == [] then []
    else (if text <= names[0] then [names[0]] else []) + Matches(names[1..], text)
  }

  class Generator {
    const table: seq<string>
    var cmd: nat
    var len: nat

    constructor (table: seq<string>)
      ensures Valid() && this.table == table
    {
      this.table, cmd, len := table, 0, 0;
    }

    ghost predicate Valid()
      reads this
    {
      cmd <= |table|
    }

    /** What the following calls with a non-zero state will return. */
    ghost function Remaining(text: string): seq<string>
      reads this
      requires Valid()
    {
      Matches(table[cmd..], text)
    }

    method Generate(text: string, state: int) returns (r: Option<string>)
      requires Valid() && (state != 0 ==> len == |text|)
      modifies this
      ensures Valid() && len == |text|
      ensures var due := if state == 0 then Matches(table, text) else old(Remaining(text));
              if due == [] then r == None && Remaining(text) == []
              else r == Some(due[0]) && Remaining(text) == due[1..]
    {
      if state == 0 {
        cmd := 0;
        len := |text|;
        assert table[0..] == table;
      }
      while cmd < |table|
        invariant Valid() && len == |text|
        invariant Remaining(text) == if state == 0 then Matches(table, text) else old(Remaining(text))
      {
        SameStartIsPrefix(table[cmd], text);
        assert table[cmd..][1..] == table[cmd + 1..];
        if SameStart(table[cmd], text, len) {
          r := Some(table[cmd]);
          cmd := cmd + 1;
          return;
        }
        cmd := cmd + 1;
      }
      r := None;
    }

    /** How readline drives the generator: state 0 first, non-zero until NULL. It gets exactly
        the matching names, and NULL again on any later call. */
    method AllMatches(text: string) returns (found: seq<string>)
      requires Valid()
      modifies this
      ensures Valid() && len == |text| && Remaining(text) == []
      ensures found == Matches(table, text)
    {
      found := [];
      var r := Generate(text, 0);
      while r.Some?
        invariant Valid() && len == |text|
        invariant r.Some? ==> found + [r.value] + Remaining(text) == Matches(table, text)
        invariant r.None? ==> found == Matches(table, text) && Remaining(text) == []
        decreases |Remaining(text)|, r.Some?
      {
        found := found + [r.value];
        r := Generate(text, 1);
      }
    }
  }

  lemma {:induction false} MatchesSnoc(names: seq<string>, text: string, name: string)
    ensures Matches(names + [name], text) == Matches(names, text) + if text <= name then [name] else []
  {
    if names == [] {
      assert [name][1..] == [];
      assert [] + [name] == [name];
    } else {
      assert (names + [name])[0] == names[0] && (names + [name])[1..] == names[1..] + [name];
      MatchesSnoc(names[1..], text, name);
    }
  }

  /** The matches are a subsequence of the table: `at` is where they stand in it, in ascending
      order, and every place that has the prefix is among them. */
  lemma {:induction false} MatchesAreInOrder(names: seq<string>, text: string) returns (at: seq<nat>)
    ensures |at| == |Matches(names, text)|
    ensures forall i :: 0 <= i < |at| ==> at[i] < |names| && names[at[i]] == Matches(names, text)[i]
    ensures forall i, j :: 0 <= i < j < |at| ==> at[i] < at[j]
    ensures forall k: nat :: k < |names| ==> (k in at <==> text <= names[k])
  {
    hide Matches;
    if names == [] {
      NoMatches(text);
      at := [];
    } else {
      var front, n := names[..|names| - 1], |names| - 1;
      at := MatchesAreInOrder(front, text);
      MatchesSnoc(front, text, names[n]);
      assert names == front + [names[n]];
      if text <= names[n] {
        at := at + [n];
      }
    }
  }

  lemma NoMatches(text: string)
    ensures Matches([], text) == []
  {}

  /** Every matching name is offered as often as the table has it, and no other name. */
  lemma {:induction false} MatchesCount(names: seq<string>, text: string, name: string)
    ensures multiset(Matches(names, text))[name] == if text <= name then multiset(names)[name] else 0
  {
    if names != [] {
      assert names == [names[0]] + names[1..];
      MatchesCount(names[1..], text, name);
    }
  }
}
