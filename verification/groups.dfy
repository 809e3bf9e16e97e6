/** `_okta_get_groups_by_name`: the groups (already fetched) whose name
    contains the query, ignoring case; with `unique=True`, exactly one. */
module Groups {
  import opened Wrappers
  import opened Errors

  /** A group record: its id and its `profile.name`. */
  datatype Group = Group(id: string, name: string)

  /** `str.lower()` on ASCII letters. */
  function LowerChar(c: char): char {
    if 'A' <= c <= 'Z' then (c as int + 32) as char else c
  }

  function Lower(s: string): string {
    seq(|s|, i requires 0 <= i < |s| => LowerChar(s[i]))
  }

  /** `needle` occurs in `hay` at `i`. */
  predicate OccursAt(hay: string, needle: string, i: int) {
    0 <= i && i + |needle| <= |hay| && hay[i..i + |needle|] == needle
  }

  /** `hay.find(needle, from)`: the first position at or after `from` where
      `needle` occurs, or -1. */
  function Find(hay: string, needle: string, from: nat): (r: int)
    ensures r == -1 <==> forall i :: from <= i ==> !OccursAt(hay, needle, i)
    ensures r != -1 ==> from <= r && OccursAt(hay, needle, r)
    ensures r != -1 ==> forall i :: from <= i < r ==> !OccursAt(hay, needle, i)
    decreases |hay| - from
  {
    if from + |needle| > |hay| then -1
    else if hay[from..from + |needle|] == needle then
      assert OccursAt(hay, needle, from);
      from
    else Find(hay, needle, from + 1)
  }

  /** The filter's test: `name.lower().find(query.lower()) != -1`. */
  predicate NameMatches(g: Group, query: string) {
    Find(Lower(g.name), Lower(query), 0) != -1
  }

  /** `list(filter(...))`: the matching groups, in their order. */
  function Matching(groups: seq<Group>, query: string): seq<Group> {
    if groups == [] then []
    else (if NameMatches(groups[0], query) then [groups[0]] else []) + Matching(groups[1..], query)
  }

  /** The lookup: with `unique`, anything but exactly one match is an error
      that reports how many groups matched. */
  function GroupsByName(groups: seq<Group>, query: string, unique: bool): (r: Result<seq<Group>, CliError>)
    ensures r.Success? ==> r.value == Matching(groups, query)
    ensures r.Success? <==> !unique || |Matching(groups, query)| == 1
    ensures r.Failure? ==> r.error == NotUnique(|Matching(groups, query)|)
  {
    var found := Matching(groups, query);
    if unique && |found| != 1 then Failure(NotUnique(|found|)) else Success(found)
  }

  /** A name matches exactly when the lowered query occurs in the lowered name. */
  lemma NameMatchesSpec(g: Group, query: string)
    ensures NameMatches(g, query) <==> exists i :: OccursAt(Lower(g.name), Lower(query), i)
  {
    if exists i :: OccursAt(Lower(g.name), Lower(query), i) {
      var i :| OccursAt(Lower(g.name), Lower(query), i);
      assert 0 <= i;
    }
  }

  /** Filtering keeps exactly the matching groups ... */
  lemma {:induction false} MatchingMembers(groups: seq<Group>, query: string, g: Group)
    ensures g in Matching(groups, query) <==> g in groups && NameMatches(g, query)
  {
    if groups != [] {
      MatchingMembers(groups[1..], query, g);
      assert groups == [groups[0]] + groups[1..];
    }
  }

  /** ... in their original order: filtering a concatenation concatenates
      the filtered parts. */
  lemma {:induction false} MatchingConcat(a: seq<Group>, b: seq<Group>, query: string)
    ensures Matching(a + b, query) == Matching(a, query) + Matching(b, query)
  {
    if a == [] {
      assert a + b == b;
    } else {
      var c := a + b;
      assert c[1..] == a[1..] + b;
      MatchingConcat(a[1..], b, query);
      var h := if NameMatches(a[0], query) then [a[0]] else [];
      assert Matching(a, query) == h + Matching(a[1..], query);
      assert Matching(c, query) == h + Matching(c[1..], query);
      assert h + (Matching(a[1..], query) + Matching(b, query)) == (h + Matching(a[1..], query)) + Matching(b, query);
    }
  }

  /** An empty query is found in every name (`find("")` is 0), so every
      group is returned. */
  lemma {:induction false} EmptyQueryMatchesAll(groups: seq<Group>)
    ensures Matching(groups, "") == groups
  {
    if groups != [] {
      EmptyQueryMatchesAll(groups[1..]);
      assert OccursAt(Lower(groups[0].name), Lower(""), 0);
    }
  }

  /** Matching ignores case: lowering the query or a name does not change
      the answer. */
  lemma IgnoresCase(g: Group, query: string)
    ensures NameMatches(g, Lower(query)) == NameMatches(g, query)
    ensures NameMatches(Group(g.id, Lower(g.name)), query) == NameMatches(g, query)
  {
    LowerTwice(query);
    LowerTwice(g.name);
  }

  lemma LowerTwice(s: string)
    ensures Lower(Lower(s)) == Lower(s)
  {
  }
}
