/**
 * The name filter and the cursor arithmetic of the finder iterator
 * (src/finder.c): which names a step skips, which it yields, and what a
 * whole enumeration yields. The engine's enumeration is the list of entry
 * names of the storage, walked from the front.
 */
module Enumeration {
  import opened Common

  /** Whether `needle` occurs in `s` starting at `i`. */
  predicate OccursAt(s: string, needle: string, i: nat) {
    i + |needle| <= |s| && s[i..i + |needle|] == needle
  }

  /**
   * `string.find (s, needle, nil, true) ~= nil`: a plain substring search
   * from the first character.
   */
  function Occurs(s: string, needle: string): (r: bool)
    ensures r <==> exists i: nat :: OccursAt(s, needle, i)
    decreases |s|
  {
    if |needle| > |s| then false
    else if s[..|needle|] == needle then
      assert OccursAt(s, needle, 0);
      true
    else
      var rest := Occurs(s[1..], needle);
      assert rest ==> exists i: nat :: OccursAt(s, needle, i) by {
        if rest {
          var i: nat :| OccursAt(s[1..], needle, i);
          assert s[1..][i..i + |needle|] == s[i + 1..i + 1 + |needle|];
          assert OccursAt(s, needle, i + 1);
        }
      }
      assert (exists i: nat :: OccursAt(s, needle, i)) ==> rest by {
        if exists i: nat :: OccursAt(s, needle, i) {
          var i: nat :| OccursAt(s, needle, i);
          assert i != 0;
          assert s[1..][i - 1..i - 1 + |needle|] == s[i..i + |needle|];
          assert OccursAt(s[1..], needle, i - 1);
        }
      }
      rest
  }

  /** The empty pattern occurs in every name. */
  lemma EmptyOccurs(s: string)
    ensures Occurs(s, "")
  {
    assert OccursAt(s, "", 0);
  }

  /**
   * The filter a finder was created with: an optional pattern and whether
   * it is plain text rather than a Lua pattern.
   */
  datatype Filter = Filter(pattern: Option<string>, plain: bool)

  /**
   * Whether a step keeps `name`: every name without a pattern; with one, a
   * substring test when `plain` is set and the Lua pattern matcher
   * `find` (left uninterpreted) otherwise.
   */
  predicate Accepts(name: string, filter: Filter, find: (string, string) -> bool) {
    match filter.pattern
    case None => true
    case Some(p) => if filter.plain then Occurs(name, p) else find(name, p)
  }

  /**
   * The index of the first name at or after `from` that `filter` keeps,
   * or `None` once the names run out.
   */
  function NextMatch(names: seq<string>, from: nat, filter: Filter, find: (string, string) -> bool): (r: Option<nat>)
    ensures r.Some? ==> from <= r.value < |names| && Accepts(names[r.value], filter, find)
    ensures r.Some? ==> forall j | from <= j < r.value :: !Accepts(names[j], filter, find)
    ensures r.None? ==> forall j | from <= j < |names| :: !Accepts(names[j], filter, find)
    decreases |names| - from
  {
    if from >= |names| then None
    else if Accepts(names[from], filter, find) then Some(from)
    else NextMatch(names, from + 1, filter, find)
  }

  /** The names kept by `filter`, from `from` on, in order. */
  function Kept(names: seq<string>, from: nat, filter: Filter, find: (string, string) -> bool): seq<string>
    decreases |names| - from
  {
    if from >= |names| then []
    else (if Accepts(names[from], filter, find) then [names[from]] else [])
         + Kept(names, from + 1, filter, find)
  }

  /** The names successive steps yield from cursor `from` until the end. */
  function Yields(names: seq<string>, from: nat, filter: Filter, find: (string, string) -> bool): seq<string>
    decreases |names| - from
  {
    match NextMatch(names, from, filter, find)
    case None => []
    case Some(i) => [names[i]] + Yields(names, i + 1, filter, find)
  }

  /** Skipping a rejected name changes nothing that is kept. */
  lemma {:induction false} KeptSkips(names: seq<string>, from: nat, to: nat, filter: Filter, find: (string, string) -> bool)
    requires from <= to <= |names|
    requires forall j | from <= j < to :: !Accepts(names[j], filter, find)
    ensures Kept(names, from, filter, find) == Kept(names, to, filter, find)
    decreases |names| - from
  {
    if from < to {
      KeptSkips(names, from + 1, to, filter, find);
    }
  }

  /**
   * A whole enumeration yields exactly the names the filter keeps, each
   * once, in the engine's order.
   */
  lemma {:induction false} YieldsKept(names: seq<string>, from: nat, filter: Filter, find: (string, string) -> bool)
    ensures Yields(names, from, filter, find) == Kept(names, from, filter, find)
    decreases |names| - from
  {
    match NextMatch(names, from, filter, find)
    case None =>
      if from < |names| {
        KeptSkips(names, from, |names|, filter, find);
      }
    case Some(i) =>
      KeptSkips(names, from, i, filter, find);
      YieldsKept(names, i + 1, filter, find);
  }

  /** Without a pattern, a finder yields every name. */
  lemma {:induction false} YieldsEverything(names: seq<string>, from: nat, find: (string, string) -> bool)
    requires from <= |names|
    ensures Yields(names, from, Filter(None, false), find) == names[from..]
    decreases |names| - from
  {
    YieldsKept(names, from, Filter(None, false), find);
    KeptAll(names, from, find);
  }

  lemma {:induction false} KeptAll(names: seq<string>, from: nat, find: (string, string) -> bool)
    requires from <= |names|
    ensures Kept(names, from, Filter(None, false), find) == names[from..]
    decreases |names| - from
  {
    if from < |names| {
      KeptAll(names, from + 1, find);
      assert names[from..] == [names[from]] + names[from + 1..];
    }
  }
}
