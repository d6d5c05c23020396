/**
 * The row transform of `fetchTranslations` (lib/translations/db.ts:42-64):
 * rows of (section, dotted key, value) are folded into one nested object per
 * section, so that the value of key `sort.popularity` in section `products`
 * ends up at products -> sort -> popularity.
 */
module Db {
  import opened Wrappers
  import opened Nested

  /** One row of the query result: the key's section, the dotted key, and the translated value. */
  datatype Row = Row(section: string, key: string, value: string)

  /** The accumulated result: one plain object per section. */
  type Sections = map<string, map<string, Node>>

  /** The property names a row's key walks through. */
  function Path(row: Row): seq<string>
  {
    Split(row.key, DOT)
  }

  /**
   * Storing `value` at `parts` below the object `obj`: a missing or falsy
   * intermediate property becomes a new empty object, an object is reused,
   * and the last property is overwritten. Passing through a non-empty string
   * makes the assignment throw (a TypeError in strict mode): None.
   */
  function InsertPath(obj: map<string, Node>, parts: seq<string>, value: string): (r: Option<map<string, Node>>)
    requires |parts| >= 1
    ensures |parts| == 1 ==> r.Some?
    ensures r.Some? ==> r.value.Keys == obj.Keys + {parts[0]}
    ensures r.Some? ==> forall k :: k in obj && k != parts[0] ==> r.value[k] == obj[k]
    decreases |parts|
  {
    if |parts| == 1 then Some(obj[parts[0] := Leaf(value)])
    else
      var p := parts[0];
      var child := if p in obj && Truthy(obj[p]) then obj[p] else Branch(map[]);
      match child
      case Leaf(_) => None
      case Branch(grandchildren) =>
        match InsertPath(grandchildren, parts[1..], value)
        case None => None
        case Some(updated) => Some(obj[p := Branch(updated)])
  }

  /** A key without a dot is a path of one property. */
  lemma UndottedSplit(key: string)
    ensures DOT !in key ==> Split(key, DOT) == [key]
  {
    if DOT !in key {
      SplitJoin([key], DOT);
    }
  }

  /** The reduce callback: make sure the section object exists, then store the row's value in it. */
  function AddRow(acc: Sections, row: Row): (r: Option<Sections>)
    ensures DOT !in row.key ==> r.Some?
    ensures r.Some? ==> r.value.Keys == acc.Keys + {row.section}
    ensures r.Some? ==> forall s :: s in acc && s != row.section ==> r.value[s] == acc[s]
  {
    UndottedSplit(row.key);
    var section := if row.section in acc then acc[row.section] else map[];
    match InsertPath(section, Path(row), row.value)
    case None => None
    case Some(updated) => Some(acc[row.section := updated])
  }

  /** The sections the rows name. */
  function SectionsOf(rows: seq<Row>): set<string>
  {
    set r | r in rows :: r.section
  }

  /** Adding a row adds its section. */
  lemma SectionsOfSnoc(rows: seq<Row>, row: Row)
    ensures SectionsOf(rows + [row]) == SectionsOf(rows) + {row.section}
  {
    assert forall r :: r in rows + [row] <==> r in rows || r == row;
  }

  /** `data.reduce(callback, {})`: None when some row makes the callback throw. */
  function Built(rows: seq<Row>): (r: Option<Sections>)
    ensures r.Some? ==> r.value.Keys == SectionsOf(rows)
    decreases |rows|
  {
    if rows == [] then Some(map[])
    else
      SectionsOfSnoc(rows[..|rows| - 1], rows[|rows| - 1]);
      assert rows[..|rows| - 1] + [rows[|rows| - 1]] == rows;
      match Built(rows[..|rows| - 1])
      case None => None
      case Some(acc) => AddRow(acc, rows[|rows| - 1])
  }

  /** The transform as the source runs it: one pass over the rows, updating the accumulator. */
  method BuildTranslations(rows: seq<Row>) returns (result: Option<Sections>)
    ensures result == Built(rows)
  {
    var acc: Sections := map[];
    var i := 0;
    while i < |rows|
      invariant 0 <= i <= |rows|
      invariant Built(rows[..i]) == Some(acc)
    {
      assert rows[..i + 1][..i] == rows[..i] && rows[..i + 1][i] == rows[i];
      assert Built(rows[..i + 1]) == AddRow(acc, rows[i]);
      var next := StoreRow(acc, rows[i]);
      if next.None? {
        PrefixFailureStops(rows, i + 1);
        return None;
      }
      acc := next.value;
      i := i + 1;
    }
    assert rows[..i] == rows;
    return Some(acc);
  }

  /** The body of the reduce callback, run on the accumulator as the source does: None where it throws. */
  method StoreRow(acc: Sections, row: Row) returns (next: Option<Sections>)
    ensures next == AddRow(acc, row)
  {
    var sections := acc;
    if row.section !in sections {
      sections := sections[row.section := map[]];
    }
    var keyParts := Split(row.key, DOT);
    var updated := InsertPath(sections[row.section], keyParts, row.value);
    assert updated == InsertPath(if row.section in acc then acc[row.section] else map[], Path(row), row.value);
    if updated.None? {
      return None;
    }
    assert sections[row.section := updated.value] == acc[row.section := updated.value];
    return Some(sections[row.section := updated.value]);
  }

  /** Once the fold fails on a prefix of the rows, it fails on all of them. */
  lemma {:induction false} PrefixFailureStops(rows: seq<Row>, n: nat)
    requires n <= |rows| && Built(rows[..n]) == None
    ensures Built(rows) == None
    decreases |rows| - n
  {
    if n < |rows| {
      assert rows[..n + 1][..n] == rows[..n];
      PrefixFailureStops(rows, n + 1);
    } else {
      assert rows[..n] == rows;
    }
  }

  /** An empty row list gives the empty object. */
  lemma BuiltEmpty()
    ensures Built([]) == Some(map[])
  {
  }

  /** A key without a dot is stored directly on its section object. */
  lemma UndottedKeyStoredDirectly(acc: Sections, row: Row)
    requires DOT !in row.key
    ensures AddRow(acc, row) ==
      Some(acc[row.section := (if row.section in acc then acc[row.section] else map[])[row.key := Leaf(row.value)]])
  {
    SplitJoin([row.key], DOT);
  }

  /** After a successful insertion, walking the same path reaches the stored value. */
  lemma {:induction false} InsertThenWalk(obj: map<string, Node>, parts: seq<string>, value: string)
    requires |parts| >= 1 && InsertPath(obj, parts, value).Some?
    ensures WalkPath(Branch(InsertPath(obj, parts, value).value), parts) == Some(Leaf(value))
    decreases |parts|
  {
    if |parts| > 1 {
      var p := parts[0];
      var child := if p in obj && Truthy(obj[p]) then obj[p] else Branch(map[]);
      InsertThenWalk(child.children, parts[1..], value);
    }
  }

  /** `p` is a proper prefix of `q`. */
  predicate StrictPrefix(p: seq<string>, q: seq<string>)
  {
    |p| < |q| && q[..|p|] == p
  }

  /** `p` is a prefix of `q` (possibly equal to it). */
  predicate IsPrefix(p: seq<string>, q: seq<string>)
  {
    |p| <= |q| && q[..|p|] == p
  }

  /** Prefixes of two paths with the same first name are prefixes of their tails. */
  lemma PrefixCons(p: string, a: seq<string>, b: seq<string>)
    ensures IsPrefix([p] + a, [p] + b) <==> IsPrefix(a, b)
  {
    if IsPrefix(a, b) {
      assert ([p] + b)[..|a| + 1] == [p] + b[..|a|];
    }
    if IsPrefix([p] + a, [p] + b) {
      assert ([p] + b)[..|a| + 1] == [p] + b[..|a|];
      assert ([p] + b[..|a|])[1..] == b[..|a|];
      assert ([p] + a)[1..] == a;
    }
  }

  /**
   * Insertion leaves alone every path that is neither a prefix of the
   * inserted path nor extends it: siblings such as `sort.popularity` survive
   * the insertion of `sort.rating`.
   */
  lemma {:induction false} InsertElsewhere(obj: map<string, Node>, parts: seq<string>, value: string, q: seq<string>)
    requires |parts| >= 1 && InsertPath(obj, parts, value).Some?
    requires !IsPrefix(parts, q) && !IsPrefix(q, parts)
    ensures WalkPath(Branch(InsertPath(obj, parts, value).value), q) == WalkPath(Branch(obj), q)
    decreases |parts|
  {
    var p := parts[0];
    if q[0] == p {
      assert parts == [p] + parts[1..] && q == [p] + q[1..];
      PrefixCons(p, [], q[1..]);
      PrefixCons(p, [], parts[1..]);
      assert [p] + [] == [p];
      PrefixCons(p, parts[1..], q[1..]);
      PrefixCons(p, q[1..], parts[1..]);
      var child := if p in obj && Truthy(obj[p]) then obj[p] else Branch(map[]);
      InsertElsewhere(child.children, parts[1..], value, q[1..]);
      if !(p in obj && Truthy(obj[p])) {
        assert WalkPath(Branch(map[]), q[1..]) == None;
      }
    }
  }

  /** No strict prefix of `parts` leads to a string below `obj`: insertion along `parts` cannot throw. */
  ghost predicate OpenRoute(obj: map<string, Node>, parts: seq<string>)
  {
    forall k :: 0 <= k < |parts| ==>
      var n := WalkPath(Branch(obj), parts[..k]); n.None? || n.value.Branch?
  }

  /** Every route is open in an empty object. */
  lemma EmptyRouteOpen(parts: seq<string>)
    ensures OpenRoute(map[], parts)
  {
    forall k | 0 <= k < |parts|
      ensures var n := WalkPath(Branch(map[]), parts[..k]); n.None? || n.value.Branch?
    {
    }
  }

  /** Walking one step into a child object and then along the rest. */
  lemma WalkStep(obj: map<string, Node>, p: string, rest: seq<string>, k: nat)
    requires k <= |rest|
    ensures WalkPath(Branch(obj), ([p] + rest)[..k + 1]) ==
      if p in obj then WalkPath(obj[p], rest[..k]) else None
  {
    assert ([p] + rest)[..k + 1] == [p] + rest[..k];
    assert ([p] + rest[..k])[1..] == rest[..k];
  }

  /** Insertion along an open route succeeds. */
  lemma {:induction false} InsertSucceeds(obj: map<string, Node>, parts: seq<string>, value: string)
    requires |parts| >= 1 && OpenRoute(obj, parts)
    ensures InsertPath(obj, parts, value).Some?
    decreases |parts|
  {
    if |parts| > 1 {
      var p := parts[0];
      assert parts == [p] + parts[1..];
      WalkStep(obj, p, parts[1..], 0);
      assert WalkPath(Branch(obj), parts[..1]) == if p in obj then Some(obj[p]) else None;
      var child := if p in obj && Truthy(obj[p]) then obj[p] else Branch(map[]);
      assert child.Branch?;
      if p in obj && Truthy(obj[p]) {
        forall k | 0 <= k < |parts[1..]|
          ensures var n := WalkPath(Branch(child.children), parts[1..][..k]); n.None? || n.value.Branch?
        {
          WalkStep(obj, p, parts[1..], k);
        }
        InsertSucceeds(child.children, parts[1..], value);
      } else {
        EmptyRouteOpen(parts[1..]);
        InsertSucceeds(map[], parts[1..], value);
      }
    }
  }

  /** After insertion, every strict prefix of the inserted path leads to an object. */
  lemma {:induction false} InsertOpensRoute(obj: map<string, Node>, parts: seq<string>, value: string, k: nat)
    requires |parts| >= 1 && InsertPath(obj, parts, value).Some? && k < |parts|
    ensures var n := WalkPath(Branch(InsertPath(obj, parts, value).value), parts[..k]); n.Some? && n.value.Branch?
    decreases |parts|
  {
    if k > 0 {
      var p := parts[0];
      assert parts == [p] + parts[1..];
      var child := if p in obj && Truthy(obj[p]) then obj[p] else Branch(map[]);
      var updated := InsertPath(obj, parts, value).value;
      WalkStep(updated, p, parts[1..], k - 1);
      InsertOpensRoute(child.children, parts[1..], value, k - 1);
    }
  }

  /** A path that is a prefix of a proper prefix of `route` is a proper prefix of `route`. */
  lemma PrefixOfTake(parts: seq<string>, route: seq<string>, k: nat)
    requires k < |route|
    ensures IsPrefix(parts, route[..k]) ==> StrictPrefix(parts, route)
  {
    if IsPrefix(parts, route[..k]) {
      assert route[..|parts|] == route[..k][..|parts|];
    }
  }

  /**
   * Insertion keeps every other route open, provided the inserted path does
   * not stop short of it (a string would then sit on that route).
   */
  lemma InsertKeepsRouteOpen(obj: map<string, Node>, parts: seq<string>, value: string, route: seq<string>)
    requires |parts| >= 1 && InsertPath(obj, parts, value).Some?
    requires OpenRoute(obj, route) && !StrictPrefix(parts, route)
    ensures OpenRoute(InsertPath(obj, parts, value).value, route)
  {
    var updated := InsertPath(obj, parts, value).value;
    forall k | 0 <= k < |route|
      ensures var n := WalkPath(Branch(updated), route[..k]); n.None? || n.value.Branch?
    {
      var q := route[..k];
      PrefixOfTake(parts, route, k);
      if IsPrefix(q, parts) {
        assert |q| == |parts| ==> q == parts;
        assert parts[..k] == q;
        InsertOpensRoute(obj, parts, value, k);
      } else {
        InsertElsewhere(obj, parts, value, q);
      }
    }
  }

  /** A prefix is either the whole path or a proper prefix. */
  lemma PrefixOrEqual(a: seq<string>, b: seq<string>)
    ensures IsPrefix(a, b) ==> a == b || StrictPrefix(a, b)
  {
    if IsPrefix(a, b) && |a| == |b| {
      assert b[..|b|] == b;
    }
  }

  /** The value of the last row with this section and key, as the string it stores; None if there is none. */
  function Written(rows: seq<Row>, section: string, key: string): Option<Node>
    decreases |rows|
  {
    if rows == [] then None
    else
      var last := rows[|rows| - 1];
      if last.section == section && last.key == key then Some(Leaf(last.value))
      else Written(rows[..|rows| - 1], section, key)
  }

  /** Within a section, no row's key path is a proper prefix of another's (no key is both a string and an object). */
  ghost predicate PrefixFree(rows: seq<Row>)
  {
    forall r1, r2 :: r1 in rows && r2 in rows && r1.section == r2.section ==> !StrictPrefix(Path(r1), Path(r2))
  }

  /** In the accumulator, every row of `all` can still be inserted without meeting a string. */
  ghost predicate RoutesOpen(all: seq<Row>, acc: Sections)
  {
    forall r :: r in all && r.section in acc ==> OpenRoute(acc[r.section], Path(r))
  }

  /** In the accumulator, walking each processed row's key reaches the last value written for it. */
  ghost predicate Reaches(done: seq<Row>, acc: Sections)
  {
    forall r :: r in done ==>
      r.section in acc && WalkPath(Branch(acc[r.section]), Path(r)) == Written(done, r.section, r.key)
  }

  /** One reduce step keeps the sections, the open routes and the reached values in step with the rows. */
  lemma AddRowStep(all: seq<Row>, done: seq<Row>, acc: Sections, row: Row)
    requires PrefixFree(all) && row in all && (forall r :: r in done ==> r in all)
    requires acc.Keys == SectionsOf(done) && RoutesOpen(all, acc) && Reaches(done, acc)
    ensures AddRow(acc, row).Some?
    ensures AddRow(acc, row).value.Keys == SectionsOf(done + [row])
    ensures RoutesOpen(all, AddRow(acc, row).value)
    ensures Reaches(done + [row], AddRow(acc, row).value)
  {
    var sec := row.section;
    var obj := if sec in acc then acc[sec] else map[];
    var parts := Path(row);
    if sec !in acc {
      EmptyRouteOpen(parts);
    }
    InsertSucceeds(obj, parts, row.value);
    var updated := InsertPath(obj, parts, row.value).value;
    var next := acc[sec := updated];
    assert AddRow(acc, row) == Some(next);
    var rows := done + [row];
    assert rows[..|rows| - 1] == done && rows[|rows| - 1] == row;
    assert SectionsOf(rows) == SectionsOf(done) + {sec};
    forall r | r in all && r.section in next
      ensures OpenRoute(next[r.section], Path(r))
    {
      if r.section == sec {
        if sec !in acc {
          EmptyRouteOpen(Path(r));
        }
        InsertKeepsRouteOpen(obj, parts, row.value, Path(r));
      }
    }
    forall r | r in rows
      ensures r.section in next && WalkPath(Branch(next[r.section]), Path(r)) == Written(rows, r.section, r.key)
    {
      if r.section == sec && r.key == row.key {
        InsertThenWalk(obj, parts, row.value);
      } else {
        assert r in done;
        if r.section == sec {
          SplitInjective(r.key, row.key, DOT);
          PrefixOrEqual(parts, Path(r));
          PrefixOrEqual(Path(r), parts);
          InsertElsewhere(obj, parts, row.value, Path(r));
        }
      }
    }
  }

  /** The invariant of the fold, for every prefix of the rows of a prefix-free list `all`. */
  lemma {:induction false} BuiltInvariant(all: seq<Row>, rows: seq<Row>)
    requires PrefixFree(all) && (forall r :: r in rows ==> r in all)
    ensures Built(rows).Some?
    ensures Built(rows).value.Keys == SectionsOf(rows)
    ensures RoutesOpen(all, Built(rows).value)
    ensures Reaches(rows, Built(rows).value)
    decreases |rows|
  {
    if rows != [] {
      var done := rows[..|rows| - 1];
      var row := rows[|rows| - 1];
      assert rows == done + [row];
      BuiltInvariant(all, done);
      AddRowStep(all, done, Built(done).value, row);
    }
  }

  /**
   * When no key path within a section is a proper prefix of another, the
   * transform succeeds, creates exactly the sections the rows name, and
   * walking a row's key from its section object (as the `t` resolver does)
   * reaches the value of the last row with that section and key.
   */
  lemma BuiltFindsLastWrite(rows: seq<Row>)
    requires PrefixFree(rows)
    ensures Built(rows).Some?
    ensures Built(rows).value.Keys == SectionsOf(rows)
    ensures forall r :: r in rows ==>
      WalkPath(Branch(Built(rows).value[r.section]), Path(r)) == Written(rows, r.section, r.key)
  {
    BuiltInvariant(rows, rows);
  }

  /**
   * Whatever rows came before, a row whose write succeeds leaves its value at
   * the end of its key's path in its section: the last write wins.
   */
  lemma LastWriteWins(rows: seq<Row>, row: Row)
    requires Built(rows + [row]).Some?
    ensures row.section in Built(rows + [row]).value
    ensures WalkPath(Branch(Built(rows + [row]).value[row.section]), Path(row)) == Some(Leaf(row.value))
  {
    var all := rows + [row];
    assert all[..|all| - 1] == rows && all[|all| - 1] == row;
    var acc := Built(rows).value;
    InsertThenWalk(if row.section in acc then acc[row.section] else map[], Path(row), row.value);
  }

  /**
   * The write of `parts` into `obj` is blocked at its `k`-th proper prefix:
   * that prefix reaches a non-empty string, whose properties cannot be assigned.
   */
  ghost predicate Blocked(obj: map<string, Node>, parts: seq<string>, k: int)
  {
    0 < k < |parts| &&
    var n := WalkPath(Branch(obj), parts[..k]);
    n.Some? && n.value.Leaf? && n.value.text != ""
  }

  /** Below an existing object, blocking is blocking one level down. */
  lemma BlockedStep(obj: map<string, Node>, parts: seq<string>, k: int)
    requires |parts| >= 2 && parts[0] in obj && obj[parts[0]].Branch?
    ensures Blocked(obj, parts, k) <==> k >= 2 && Blocked(obj[parts[0]].children, parts[1..], k - 1)
  {
    if 0 < k < |parts| {
      assert parts == [parts[0]] + parts[1..];
      WalkStep(obj, parts[0], parts[1..], k - 1);
      if k >= 2 {
        assert parts[1..][..k - 1] != [];
      } else {
        assert parts[1..][..0] == [];
      }
    }
  }

  /** Where a missing or empty-string property is replaced by a new object, nothing below it is blocked. */
  lemma FreshNotBlocked(obj: map<string, Node>, parts: seq<string>, k: int)
    requires |parts| >= 2 && !(parts[0] in obj && Truthy(obj[parts[0]]))
    ensures !Blocked(obj, parts, k)
  {
    if 0 < k < |parts| {
      assert parts == [parts[0]] + parts[1..];
      WalkStep(obj, parts[0], parts[1..], k - 1);
    }
  }

  /** Nothing is blocked in an empty object. */
  lemma EmptyNotBlocked(parts: seq<string>, k: int)
    ensures !Blocked(map[], parts, k)
  {
  }

  /**
   * A write fails exactly when one of its key's proper prefixes reaches a
   * non-empty string; missing and empty-string intermediates never make it fail.
   */
  lemma {:induction false} InsertFails(obj: map<string, Node>, parts: seq<string>, value: string)
    requires |parts| >= 1
    ensures InsertPath(obj, parts, value).None? <==> exists k :: Blocked(obj, parts, k)
    decreases |parts|
  {
    if |parts| == 1 {
      assert forall k :: !Blocked(obj, parts, k);
    } else {
      var p := parts[0];
      if p in obj && Truthy(obj[p]) {
        match obj[p]
        case Leaf(_) =>
          assert parts[..1] == [p];
          assert [p][1..] == [];
          assert Blocked(obj, parts, 1);
        case Branch(g) =>
          InsertFails(g, parts[1..], value);
          forall k ensures Blocked(obj, parts, k) <==> k >= 2 && Blocked(g, parts[1..], k - 1) {
            BlockedStep(obj, parts, k);
          }
          if InsertPath(g, parts[1..], value).None? {
            var j :| Blocked(g, parts[1..], j);
            assert Blocked(obj, parts, j + 1);
          }
      } else {
        InsertFails(map[], parts[1..], value);
        forall k ensures !Blocked(map[], parts[1..], k) {
          EmptyNotBlocked(parts[1..], k);
        }
        forall k ensures !Blocked(obj, parts, k) {
          FreshNotBlocked(obj, parts, k);
        }
      }
    }
  }

  /** The object a row is written into: its section's object, or a new one. */
  function SectionObject(acc: Sections, section: string): map<string, Node>
  {
    if section in acc then acc[section] else map[]
  }

  /** The reduce callback throws exactly when the row's key is blocked in its section's object. */
  lemma AddRowFails(acc: Sections, row: Row)
    ensures AddRow(acc, row).None? <==> exists k :: Blocked(SectionObject(acc, row.section), Path(row), k)
  {
    InsertFails(SectionObject(acc, row.section), Path(row), row.value);
  }

  /** The fold gets as far as row `i` and the callback throws on it. */
  ghost predicate FailsAt(rows: seq<Row>, i: int)
  {
    0 <= i < |rows| && Built(rows[..i]).Some? && AddRow(Built(rows[..i]).value, rows[i]).None?
  }

  /** Whether the fold fails at an earlier row is the same seen from the rows or from all but the last. */
  lemma FailsAtInit(rows: seq<Row>, i: int)
    requires rows != []
    ensures FailsAt(rows[..|rows| - 1], i) <==> i < |rows| - 1 && FailsAt(rows, i)
  {
    var init := rows[..|rows| - 1];
    if 0 <= i < |rows| - 1 {
      assert init[..i] == rows[..i] && init[i] == rows[i];
    }
  }

  /** A failure before the last row is a failure of the whole. */
  lemma FailureCarriesOver(rows: seq<Row>, init: seq<Row>)
    requires rows != [] && init == rows[..|rows| - 1] && exists i :: FailsAt(init, i)
    ensures exists i :: FailsAt(rows, i)
  {
    var i :| FailsAt(init, i);
    FailsAtInit(rows, i);
  }

  /** When the fold succeeds on all rows, the callback threw on none of them. */
  lemma SuccessFailsNowhere(rows: seq<Row>, init: seq<Row>)
    requires rows != [] && init == rows[..|rows| - 1] && !(exists i :: FailsAt(init, i)) && Built(rows).Some?
    ensures forall i :: !FailsAt(rows, i)
  {
    var n := |rows|;
    assert !FailsAt(rows, n - 1);
    forall i | i != n - 1 ensures !FailsAt(rows, i) {
      FailsAtInit(rows, i);
    }
  }

  /** The transform fails exactly when the callback throws on some row that the fold reaches. */
  lemma {:induction false} BuiltFails(rows: seq<Row>)
    ensures Built(rows).None? <==> exists i :: FailsAt(rows, i)
    decreases |rows|
  {
    if rows != [] {
      var n := |rows|;
      var init := rows[..n - 1];
      BuiltFails(init);
      if Built(init).None? {
        FailureCarriesOver(rows, init);
      } else if Built(rows).None? {
        assert FailsAt(rows, n - 1);
      } else {
        SuccessFailsNowhere(rows, init);
      }
    }
  }
}
