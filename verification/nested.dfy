/** `_dict_flat_to_nested`: a dictionary whose keys are dotted paths
    (`"one.two.three"`) becomes a nested payload (`{one: {two: {three: v}}}`),
    with default values written first and the record's values over them. */
module Nested {
  import opened Wrappers
  import opened Errors
  import opened Dicts

  /** A nested payload: a string at a leaf, or children by segment name. */
  datatype Tree = Leaf(value: string) | Node(children: map<string, Tree>)

  /** The empty container the merge starts from. */
  const Empty: Tree := Node(map[])

  /** The segments of a dotted key. */
  function PathOf(key: string): seq<string> {
    SplitOn(key, '.')
  }

  /** The paths that keys have: at least one segment, no segment with a dot. */
  ghost predicate IsKeyPath(p: seq<string>) {
    |p| >= 1 && forall i :: 0 <= i < |p| ==> '.' !in p[i]
  }

  /** The string at the end of `p`, if `p` leads to a leaf. */
  function Lookup(t: Tree, p: seq<string>): Option<string>
    decreases |p|
  {
    if p == [] then (if t.Leaf? then Some(t.value) else None)
    else if t.Node? && p[0] in t.children then Lookup(t.children[p[0]], p[1..])
    else None
  }

  /** `p` leads to a container. */
  predicate IsNodeAt(t: Tree, p: seq<string>)
    decreases |p|
  {
    if p == [] then t.Node?
    else t.Node? && p[0] in t.children && IsNodeAt(t.children[p[0]], p[1..])
  }

  /** The same two questions about a place that may be empty. */
  function LookupIn(at: Option<Tree>, p: seq<string>): Option<string> {
    if at.None? then None else Lookup(at.value, p)
  }

  predicate IsNodeIn(at: Option<Tree>, p: seq<string>) {
    at.Some? && IsNodeAt(at.value, p)
  }

  /** `tmp[key] = val` for the path `p`: writes `v` at `p` below `at` (None
      when nothing is there yet), creating the containers on the way. None
      when the write would turn a leaf into a container or a container into
      a leaf. */
  function SetPath(at: Option<Tree>, p: seq<string>, v: string): Option<Tree>
    decreases |p|
  {
    if p == [] then
      if at.Some? && at.value.Node? then None else Some(Leaf(v))
    else if at.Some? && at.value.Leaf? then None
    else
      var children := if at.Some? then at.value.children else map[];
      var sub :- SetPath(if p[0] in children then Some(children[p[0]]) else None, p[1..], v);
      Some(Node(children[p[0] := sub]))
  }

  /** A successful write puts `v` at `p` and leaves every other leaf, and
      every place without a leaf, as it was. */
  lemma {:induction false} SetPathLookup(at: Option<Tree>, p: seq<string>, v: string, q: seq<string>)
    requires SetPath(at, p, v).Some?
    ensures Lookup(SetPath(at, p, v).value, q) == if q == p then Some(v) else LookupIn(at, q)
    decreases |p|
  {
    if p != [] && q != [] {
      var children := if at.Some? then at.value.children else map[];
      var child := if p[0] in children then Some(children[p[0]]) else None;
      if q[0] == p[0] {
        SetPathLookup(child, p[1..], v, q[1..]);
        assert q == p <==> q[1..] == p[1..] by {
          if q[1..] == p[1..] {
            assert q == [q[0]] + q[1..] && p == [p[0]] + p[1..];
          }
        }
      }
    }
  }

  /** A write succeeds exactly when no leaf lies on the way to `p` and no
      container sits at `p` itself. */
  lemma {:induction false} SetPathSucceeds(at: Option<Tree>, p: seq<string>, v: string)
    ensures SetPath(at, p, v).Some? <==>
      (forall m :: 0 <= m < |p| ==> LookupIn(at, p[..m]).None?) && !IsNodeIn(at, p)
    decreases |p|
  {
    if p != [] {
      assert p[..0] == [];
      if !(at.Some? && at.value.Leaf?) {
        var children := if at.Some? then at.value.children else map[];
        var child := if p[0] in children then Some(children[p[0]]) else None;
        SetPathSucceeds(child, p[1..], v);
        forall m | 1 <= m < |p|
          ensures LookupIn(at, p[..m]) == LookupIn(child, p[1..][..m - 1])
        {
          assert p[..m][0] == p[0] && p[..m][1..] == p[1..][..m - 1];
        }
        if (forall m :: 0 <= m < |p| - 1 ==> LookupIn(child, p[1..][..m]).None?) {
          forall m | 0 <= m < |p| ensures LookupIn(at, p[..m]).None? {
            if m >= 1 {
              assert LookupIn(child, p[1..][..m - 1]).None?;
            }
          }
        } else {
          var m :| 0 <= m < |p| - 1 && LookupIn(child, p[1..][..m]).Some?;
          assert LookupIn(at, p[..m + 1]).Some?;
        }
      }
    }
  }

  /** After a successful write the containers are the old ones plus those
      on the way to `p`. */
  lemma {:induction false} SetPathNodes(at: Option<Tree>, p: seq<string>, v: string, q: seq<string>)
    requires SetPath(at, p, v).Some?
    ensures IsNodeAt(SetPath(at, p, v).value, q) <==> IsNodeIn(at, q) || StrictPrefix(q, p)
    decreases |p|
  {
    if p != [] && q != [] {
      var children := if at.Some? then at.value.children else map[];
      var child := if p[0] in children then Some(children[p[0]]) else None;
      if q[0] == p[0] {
        SetPathNodes(child, p[1..], v, q[1..]);
        assert StrictPrefix(q, p) <==> StrictPrefix(q[1..], p[1..]) by {
          if StrictPrefix(q[1..], p[1..]) {
            assert q == [q[0]] + q[1..];
            assert p[..|q|] == [p[0]] + p[1..][..|q| - 1];
          }
        }
      }
    }
  }

  /** `p` is a proper prefix of `q`. */
  predicate StrictPrefix(p: seq<string>, q: seq<string>) {
    |p| < |q| && q[..|p|] == p
  }

  /** Writes the items of `d` into `t` in their order. */
  function MergeInto(t: Tree, d: Dict): Result<Tree, CliError>
    decreases |d|
  {
    if d == [] then Success(t)
    else
      match SetPath(Some(t), PathOf(d[0].0), d[0].1)
      case None => Failure(PathConflict(d[0].0))
      case Some(t') => MergeInto(t', d[1..])
  }

  /** The payload built from a record and its defaults: the defaults go in
      first, then the record's own items. */
  function Nest(flat: Dict, defaults: Dict): Result<Tree, CliError> {
    var t :- MergeInto(Empty, defaults);
    MergeInto(t, flat)
  }

  /** `_dict_flat_to_nested(flat_dict, defaults)`, its two loops over the
      items; `defaults=None` is the empty dictionary. */
  method FlatToNested(flat: Dict, defaults: Dict) returns (r: Result<Tree, CliError>)
    ensures r == Nest(flat, defaults)
  {
    var tmp := Empty;
    var i := 0;
    while i < |defaults|
      invariant 0 <= i <= |defaults|
      invariant MergeInto(Empty, defaults) == MergeInto(tmp, defaults[i..])
    {
      var (key, val) := defaults[i];
      assert defaults[i..][1..] == defaults[i + 1..];
      var next := SetPath(Some(tmp), PathOf(key), val);
      if next.None? {
        return Failure(PathConflict(key));
      }
      tmp := next.value;
      i := i + 1;
    }
    i := 0;
    while i < |flat|
      invariant 0 <= i <= |flat|
      invariant Nest(flat, defaults) == MergeInto(tmp, flat[i..])
    {
      var (key, val) := flat[i];
      assert flat[i..][1..] == flat[i + 1..];
      var next := SetPath(Some(tmp), PathOf(key), val);
      if next.None? {
        return Failure(PathConflict(key));
      }
      tmp := next.value;
      i := i + 1;
    }
    return Success(tmp);
  }

  /** A key path is the path of exactly one key. */
  lemma PathOfKey(key: string, p: seq<string>)
    ensures IsKeyPath(PathOf(key))
    ensures IsKeyPath(p) ==> (p == PathOf(key) <==> Join(p, '.') == key)
  {
    JoinSplit(key, '.');
    if IsKeyPath(p) {
      SplitJoin(p, '.');
    }
  }

  /** Writing a dictionary: the path of each key ends in that key's value;
      every other path reads as before. */
  lemma {:induction false} MergeIntoLookup(t: Tree, d: Dict, p: seq<string>)
    requires DistinctKeys(d)
    requires MergeInto(t, d).Success?
    ensures Lookup(MergeInto(t, d).value, p) ==
      if IsKeyPath(p) && Get(d, Join(p, '.')).Some? then Get(d, Join(p, '.')) else Lookup(t, p)
    decreases |d|
  {
    if d != [] {
      var (k0, v0) := d[0];
      var t1 := SetPath(Some(t), PathOf(k0), v0).value;
      MergeIntoLookup(t1, d[1..], p);
      SetPathLookup(Some(t), PathOf(k0), v0, p);
      PathOfKey(k0, p);
      if IsKeyPath(p) && Join(p, '.') == k0 {
        assert Get(d[1..], k0) == None;
      }
    }
  }

  /** The merge (the docstring's promise and the comment "values from
      flat_dict have precedence over default values"): at the path of a key
      of the record sits the record's value; at the path of a key only the
      defaults have sits the default; there is no other leaf. */
  lemma NestLookup(flat: Dict, defaults: Dict, p: seq<string>)
    requires DistinctKeys(flat) && DistinctKeys(defaults)
    requires Nest(flat, defaults).Success?
    ensures Lookup(Nest(flat, defaults).value, p) ==
      if !IsKeyPath(p) then None
      else if Get(flat, Join(p, '.')).Some? then Get(flat, Join(p, '.'))
      else Get(defaults, Join(p, '.'))
  {
    var t := MergeInto(Empty, defaults).value;
    MergeIntoLookup(Empty, defaults, p);
    MergeIntoLookup(t, flat, p);
  }

  /** The same, for one key: `one.two.three = v` lands at `one → two → three`. */
  lemma NestKey(flat: Dict, defaults: Dict, key: string)
    requires DistinctKeys(flat) && DistinctKeys(defaults)
    requires Nest(flat, defaults).Success?
    ensures Get(flat, key).Some? ==> Lookup(Nest(flat, defaults).value, PathOf(key)) == Get(flat, key)
    ensures Get(flat, key).None? ==> Lookup(Nest(flat, defaults).value, PathOf(key)) == Get(defaults, key)
  {
    NestLookup(flat, defaults, PathOf(key));
    PathOfKey(key, PathOf(key));
  }

  /** The paths of the keys of `d`, in order. */
  function Paths(d: Dict): seq<seq<string>> {
    seq(|d|, i requires 0 <= i < |d| => PathOf(d[i].0))
  }

  /** Two of the paths would need one place to be both a leaf and a
      container. */
  ghost predicate Clash(ps: seq<seq<string>>) {
    exists i, j :: 0 <= i < |ps| && 0 <= j < |ps| && StrictPrefix(ps[i], ps[j])
  }

  /** `t` has leaves exactly at the paths `ps` and containers exactly on the
      way to them. */
  ghost predicate Shaped(t: Tree, ps: seq<seq<string>>) {
    && (forall q :: Lookup(t, q).Some? <==> q in ps)
    && (forall q :: IsNodeAt(t, q) <==> q == [] || exists p :: p in ps && StrictPrefix(q, p))
  }

  /** Writing one more key path `p` into a tree shaped by clash-free paths
      `ps` succeeds exactly when `p` does not clash with them, and the new
      tree is shaped by `ps + [p]`. */
  lemma SetPathShaped(t: Tree, ps: seq<seq<string>>, p: seq<string>, v: string)
    requires Shaped(t, ps) && !Clash(ps) && |p| >= 1
    ensures SetPath(Some(t), p, v).Some? <==> !Clash(ps + [p])
    ensures SetPath(Some(t), p, v).Some? ==> Shaped(SetPath(Some(t), p, v).value, ps + [p])
  {
    var ps' := ps + [p];
    SetPathSucceeds(Some(t), p, v);
    if SetPath(Some(t), p, v).Some? {
      var t1 := SetPath(Some(t), p, v).value;
      forall q ensures Lookup(t1, q).Some? <==> q in ps' {
        SetPathLookup(Some(t), p, v, q);
      }
      forall q ensures IsNodeAt(t1, q) <==> q == [] || exists p' :: p' in ps' && StrictPrefix(q, p') {
        SetPathNodes(Some(t), p, v, q);
      }
      forall i, j | 0 <= i < |ps'| && 0 <= j < |ps'|
        ensures !StrictPrefix(ps'[i], ps'[j])
      {
        if i < |ps| && j < |ps| {
          assert ps'[i] == ps[i] && ps'[j] == ps[j];
        } else if i < |ps| {
          assert ps[i] in ps;
          var m := |ps[i]|;
          if m < |p| {
            assert LookupIn(Some(t), p[..m]).None?;
            assert p[..m] != ps[i];
          }
        } else if j < |ps| {
          assert ps[j] in ps;
        }
      }
    } else {
      if exists m :: 0 <= m < |p| && LookupIn(Some(t), p[..m]).Some? {
        var m :| 0 <= m < |p| && LookupIn(Some(t), p[..m]).Some?;
        assert p[..m] in ps;
        var i :| 0 <= i < |ps| && ps[i] == p[..m];
        assert StrictPrefix(ps'[i], ps'[|ps|]);
      } else {
        assert IsNodeAt(t, p);
        var p' :| p' in ps && StrictPrefix(p, p');
        var j :| 0 <= j < |ps| && ps[j] == p';
        assert StrictPrefix(ps'[|ps|], ps'[j]);
      }
    }
  }

  /** A clash among paths already written and paths still to come is found
      by the merge, and nothing else makes it fail. */
  lemma {:induction false} MergeIntoClash(t: Tree, ps: seq<seq<string>>, d: Dict)
    requires Shaped(t, ps) && !Clash(ps)
    ensures MergeInto(t, d).Failure? <==> Clash(ps + Paths(d))
    decreases |d|
  {
    if d == [] {
      assert ps + Paths(d) == ps;
    } else {
      var p := PathOf(d[0].0);
      assert ps + Paths(d) == (ps + [p]) + Paths(d[1..]);
      PathOfKey(d[0].0, p);
      SetPathShaped(t, ps, p, d[0].1);
      if SetPath(Some(t), p, d[0].1).Some? {
        MergeIntoClash(SetPath(Some(t), p, d[0].1).value, ps + [p], d[1..]);
      } else {
        ClashGrows(ps + [p], Paths(d[1..]));
      }
    }
  }

  lemma ClashGrows(ps: seq<seq<string>>, more: seq<seq<string>>)
    requires Clash(ps)
    ensures Clash(ps + more)
  {
    var i, j :| 0 <= i < |ps| && 0 <= j < |ps| && StrictPrefix(ps[i], ps[j]);
    assert (ps + more)[i] == ps[i] && (ps + more)[j] == ps[j];
  }

  /** Writing `a` and then `b` is writing `a + b`. */
  lemma {:induction false} MergeIntoConcat(t: Tree, a: Dict, b: Dict)
    ensures MergeInto(t, a + b) ==
      match MergeInto(t, a)
      case Failure(e) => Failure(e)
      case Success(t1) => MergeInto(t1, b)
    decreases |a|
  {
    if a == [] {
      assert a + b == b;
    } else {
      assert (a + b)[0] == a[0] && (a + b)[1..] == a[1..] + b;
      match SetPath(Some(t), PathOf(a[0].0), a[0].1)
      case None =>
      case Some(t1) => MergeIntoConcat(t1, a[1..], b);
    }
  }

  /** When the merge fails: exactly when two keys, of the defaults and the
      record together, need one place to be both a leaf and a container (as
      `a` and `a.b` do). A record key equal to a default key is no
      conflict: the record's value replaces the default. */
  lemma NestConflict(flat: Dict, defaults: Dict)
    ensures Nest(flat, defaults).Failure? <==> Clash(Paths(defaults + flat))
  {
    MergeIntoConcat(Empty, defaults, flat);
    forall q ensures IsNodeAt(Empty, q) <==> q == [] {
    }
    assert Shaped(Empty, []);
    assert !Clash([]);
    MergeIntoClash(Empty, [], defaults + flat);
    assert [] + Paths(defaults + flat) == Paths(defaults + flat);
  }
}
