/** The `k=v` items given with `--set` (and `--match`) and the optional
    `--context` prefix of `users update`. */
module Assignments {
  import opened Wrappers
  import opened Errors
  import opened Dicts

  /** One item, `k, v = item.split("=")`: exactly two pieces or the
      unpacking fails, so a value that itself holds `=` is an error. */
  function ParseItem(item: string): (r: Result<(string, string), CliError>)
    ensures r.Success? ==> item == r.value.0 + "=" + r.value.1
    ensures r.Success? ==> '=' !in r.value.0 && '=' !in r.value.1
    ensures r.Failure? ==> r.error.MalformedAssignment? && r.error.item == item && r.error.parts != 2
  {
    var parts := SplitOn(item, '=');
    if |parts| != 2 then Failure(MalformedAssignment(item, |parts|))
    else
      JoinSplit(item, '=');
      assert Join(parts, '=') == parts[0] + "=" + Join(parts[1..], '=');
      Success((parts[0], parts[1]))
  }

  /** An item is well formed exactly when it holds one `=`, and every key and
      value without `=` is read back from `k=v`. */
  lemma ParseItemExact(item: string, k: string, v: string)
    ensures ParseItem(item).Success? <==> multiset(item)['='] == 1
    ensures '=' !in k && '=' !in v ==> ParseItem(k + "=" + v) == Success((k, v))
  {
    SplitCount(item, '=');
    if '=' !in k && '=' !in v {
      var parts := [k, v];
      assert Join(parts, '=') == k + "=" + v;
      SplitJoin(parts, '=');
    }
  }

  /** The dict comprehension over the items: read in order, the first
      malformed item stops it, and a later item with an earlier item's key
      replaces its value. */
  function ParseAssignments(items: seq<string>): Result<Dict, CliError> {
    ParseInto([], items)
  }

  function ParseInto(acc: Dict, items: seq<string>): Result<Dict, CliError>
    decreases |items|
  {
    if items == [] then Success(acc)
    else
      var kv :- ParseItem(items[0]);
      ParseInto(Put(acc, kv.0, kv.1), items[1..])
  }

  /** The value the last well-formed item with key `k` assigns, if any. */
  ghost function LastAssigned(items: seq<string>, k: string): Option<string>
    decreases |items|
  {
    if items == [] then None
    else
      var later := LastAssigned(items[1..], k);
      var first := ParseItem(items[0]);
      if later.Some? then later
      else if first.Success? && first.value.0 == k then Some(first.value.1)
      else None
  }

  lemma {:induction false} ParseIntoOutcome(acc: Dict, items: seq<string>)
    ensures ParseInto(acc, items).Success? <==>
              forall i :: 0 <= i < |items| ==> ParseItem(items[i]).Success?
    ensures ParseInto(acc, items).Failure? ==>
              exists i :: 0 <= i < |items| && ParseItem(items[i]).Failure? &&
                          (forall j :: 0 <= j < i ==> ParseItem(items[j]).Success?) &&
                          ParseInto(acc, items).error == ParseItem(items[i]).error
    decreases |items|
  {
    if items != [] {
      var first := ParseItem(items[0]);
      if first.Success? {
        var rest := items[1..];
        assert forall i :: 0 <= i < |rest| ==> rest[i] == items[i + 1];
        ParseIntoOutcome(Put(acc, first.value.0, first.value.1), rest);
        if ParseInto(acc, items).Failure? {
          var i :| 0 <= i < |rest| && ParseItem(rest[i]).Failure? &&
                   (forall j :: 0 <= j < i ==> ParseItem(rest[j]).Success?) &&
                   ParseInto(acc, items).error == ParseItem(rest[i]).error;
          assert ParseItem(items[i + 1]).Failure?;
          assert forall j :: 0 <= j < i + 1 ==> ParseItem(items[j]).Success? by {
            forall j | 0 <= j < i + 1
              ensures ParseItem(items[j]).Success?
            {
              if j > 0 {
                assert items[j] == rest[j - 1];
              }
            }
          }
        }
      }
    }
  }

  lemma {:induction false} ParseIntoValues(acc: Dict, items: seq<string>)
    requires DistinctKeys(acc)
    requires ParseInto(acc, items).Success?
    ensures DistinctKeys(ParseInto(acc, items).value)
    ensures forall k :: Get(ParseInto(acc, items).value, k) ==
              if LastAssigned(items, k).Some? then LastAssigned(items, k) else Get(acc, k)
    decreases |items|
  {
    if items != [] {
      var first := ParseItem(items[0]).value;
      var acc' := Put(acc, first.0, first.1);
      ParseIntoValues(acc', items[1..]);
    }
  }

  /** Parsing the `--set` items: it fails exactly when some item is
      malformed, with the first such item's error; otherwise every key maps to the
      value of the last item that assigns it, and to nothing else. */
  lemma ParseAssignmentsSpec(items: seq<string>)
    ensures ParseAssignments(items).Success? <==>
              forall i :: 0 <= i < |items| ==> ParseItem(items[i]).Success?
    ensures ParseAssignments(items).Failure? ==>
              exists i :: 0 <= i < |items| && ParseItem(items[i]).Failure? &&
                          (forall j :: 0 <= j < i ==> ParseItem(items[j]).Success?) &&
                          ParseAssignments(items).error == ParseItem(items[i]).error
    ensures ParseAssignments(items).Success? ==>
              DistinctKeys(ParseAssignments(items).value) &&
              forall k :: Get(ParseAssignments(items).value, k) == LastAssigned(items, k)
  {
    ParseIntoOutcome([], items);
    if ParseAssignments(items).Success? {
      ParseIntoValues([], items);
    }
  }

  /** `{context + "." + k: v for k, v in d.items()}`. */
  function Prefixed(d: Dict, context: string): (r: Dict)
    ensures |r| == |d|
    ensures forall i :: 0 <= i < |d| ==> r[i] == (context + "." + d[i].0, d[i].1)
  {
    if d == [] then [] else [(context + "." + d[0].0, d[0].1)] + Prefixed(d[1..], context)
  }

  /** `if context:` rewrites every key; an empty context is false in Python
      and leaves the keys alone. */
  function WithContext(d: Dict, context: Option<string>): Dict {
    if Truthy(context) then Prefixed(d, context.value) else d
  }

  lemma {:induction false} PrefixedGet(d: Dict, c: string, key: string)
    ensures Get(Prefixed(d, c), key) ==
      if |key| > |c| && key[..|c| + 1] == c + "." then Get(d, key[|c| + 1..]) else None
  {
    if d != [] {
      PrefixedGet(d[1..], c, key);
      var k0 := c + "." + d[0].0;
      assert Prefixed(d, c)[0].0 == k0;
      assert Prefixed(d, c)[1..] == Prefixed(d[1..], c);
      assert k0[..|c| + 1] == c + "." && k0[|c| + 1..] == d[0].0;
      if k0 == key {
        assert Get(d, key[|c| + 1..]) == Some(d[0].1);
      }
    }
  }

  /** With a non-empty context `c`, the value of `k` moves to `c.k`, no key
      is left outside `c.`, keys stay distinct, and the dotted path of `c.k`
      is the path of `c` followed by the path of `k`. */
  lemma ContextSpec(d: Dict, c: string, k: string, key: string)
    requires c != ""
    ensures Get(WithContext(d, Some(c)), c + "." + k) == Get(d, k)
    ensures (|key| <= |c| || key[..|c| + 1] != c + ".") ==> Get(WithContext(d, Some(c)), key) == None
    ensures DistinctKeys(d) ==> DistinctKeys(WithContext(d, Some(c)))
    ensures SplitOn(c + "." + k, '.') == SplitOn(c, '.') + SplitOn(k, '.')
  {
    PrefixedGet(d, c, c + "." + k);
    assert (c + "." + k)[..|c| + 1] == c + "." && (c + "." + k)[|c| + 1..] == k;
    PrefixedGet(d, c, key);
    PrefixedDistinct(d, c);
    SplitConcat(c, k, '.');
  }

  lemma {:induction false} PrefixedDistinct(d: Dict, c: string)
    ensures DistinctKeys(d) ==> DistinctKeys(Prefixed(d, c))
  {
    if d != [] && DistinctKeys(d) {
      PrefixedDistinct(d[1..], c);
      var k0 := c + "." + d[0].0;
      PrefixedGet(d[1..], c, k0);
      assert k0[..|c| + 1] == c + "." && k0[|c| + 1..] == d[0].0;
      assert Get(d[1..], d[0].0) == None;
      var p := Prefixed(d, c);
      assert p == [(k0, d[0].1)] + Prefixed(d[1..], c);
      forall i, j | 0 <= i < j < |p| ensures p[i].0 != p[j].0 {
        if i == 0 {
          assert p[j] == Prefixed(d[1..], c)[j - 1];
        }
      }
    }
  }

  /** The items with `c.` written in front of each, as
      `-s c.k=v` spells what `-c c -s k=v` means. */
  function PrefixItems(items: seq<string>, c: string): seq<string> {
    seq(|items|, i requires 0 <= i < |items| => c + "." + items[i])
  }

  /** `c.` in front of a key is removed again by dropping `|c| + 1` characters. */
  lemma PrefixStrip(c: string, k: string)
    ensures (c + "." + k)[|c| + 1..] == k
  {
  }

  /** With no `=` in the context, `c.k=v` parses to `(c.k, v)` exactly when
      `k=v` parses to `(k, v)`. */
  lemma ParseItemPrefixed(item: string, c: string)
    requires '=' !in c
    ensures ParseItem(c + "." + item).Success? <==> ParseItem(item).Success?
    ensures ParseItem(item).Success? ==>
              ParseItem(c + "." + item).value == (c + "." + ParseItem(item).value.0, ParseItem(item).value.1)
  {
    assert c + "." + item == (c + ".") + item;
    SplitPrefix(c + ".", item, '=');
  }

  /** Writing `c.k` into a prefixed dictionary is prefixing after writing `k`. */
  lemma {:induction false} PrefixedPut(d: Dict, c: string, k: string, v: string)
    ensures Prefixed(Put(d, k, v), c) == Put(Prefixed(d, c), c + "." + k, v)
  {
    if d != [] {
      PrefixStrip(c, k);
      PrefixStrip(c, d[0].0);
      assert Prefixed(d, c)[1..] == Prefixed(d[1..], c);
      if d[0].0 != k {
        PrefixedPut(d[1..], c, k, v);
        assert Put(d, k, v) == [d[0]] + Put(d[1..], k, v);
      }
    }
  }

  /** Parsing the prefixed items from a prefixed dictionary succeeds exactly
      when parsing the items does, and gives the prefixed result. */
  lemma {:induction false} ParseIntoPrefixed(acc: Dict, items: seq<string>, c: string)
    requires '=' !in c
    ensures ParseInto(Prefixed(acc, c), PrefixItems(items, c)).Success? <==> ParseInto(acc, items).Success?
    ensures ParseInto(acc, items).Success? ==>
              ParseInto(Prefixed(acc, c), PrefixItems(items, c)).value == Prefixed(ParseInto(acc, items).value, c)
    decreases |items|
  {
    if items != [] {
      var pre := PrefixItems(items, c);
      assert pre[0] == c + "." + items[0];
      assert pre[1..] == PrefixItems(items[1..], c);
      ParseItemPrefixed(items[0], c);
      if ParseItem(items[0]).Success? {
        var kv := ParseItem(items[0]).value;
        PrefixedPut(acc, c, kv.0, kv.1);
        ParseIntoPrefixed(Put(acc, kv.0, kv.1), items[1..], c);
      }
    }
  }
}
