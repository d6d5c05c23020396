/**
 * The nested translation objects of lib/translations: a value is either a
 * string or an object whose properties are again values. Dotted keys such as
 * `sort.popularity` name a path through such objects.
 */
module Nested {
  import opened Wrappers

  /** A JavaScript value inside a translation table: a string or a plain object. */
  datatype Node = Leaf(text: string) | Branch(children: map<string, Node>)

  /** JavaScript truthiness of a value: only the empty string is falsy. */
  predicate Truthy(n: Node)
    ensures Truthy(n) <==> n != Leaf("")
  {
    match n
    case Leaf(s) => s != ""
    case Branch(_) => true
  }

  /** The separator of dotted keys. */
  const DOT: char := '.'

  /**
   * `s.split(sep)`: the pieces of `s` between occurrences of `sep`. There is
   * always at least one piece; the empty string gives one empty piece.
   */
  function Split(s: string, sep: char): (parts: seq<string>)
    ensures |parts| >= 1
    ensures forall i :: 0 <= i < |parts| ==> sep !in parts[i]
    decreases |s|
  {
    if s == [] then [[]]
    else
      var rest := Split(s[1..], sep);
      if s[0] == sep then [[]] + rest
      else [[s[0]] + rest[0]] + rest[1..]
  }

  /** `parts.join(sep)`, the inverse of Split. */
  function Join(parts: seq<string>, sep: char): string
    requires |parts| >= 1
  {
    if |parts| == 1 then parts[0] else parts[0] + [sep] + Join(parts[1..], sep)
  }

  /** Joining the pieces of a split gives back the original string. */
  lemma {:induction false} JoinSplit(s: string, sep: char)
    ensures Join(Split(s, sep), sep) == s
    decreases |s|
  {
    if s != [] {
      var rest := Split(s[1..], sep);
      JoinSplit(s[1..], sep);
      if s[0] == sep {
        assert Split(s, sep) == [[]] + rest;
        assert ([[]] + rest)[1..] == rest;
      } else {
        var parts := Split(s, sep);
        assert parts == [[s[0]] + rest[0]] + rest[1..];
        if |rest| > 1 {
          assert parts[1..] == rest[1..];
          assert Join(rest, sep) == rest[0] + [sep] + Join(rest[1..], sep);
        }
      }
    }
  }

  /** Splitting `p + s` where `p` holds no separator extends the first piece of `s`. */
  lemma {:induction false} SplitPrepend(p: string, s: string, sep: char)
    requires sep !in p
    ensures Split(p + s, sep) == [p + Split(s, sep)[0]] + Split(s, sep)[1..]
    decreases |p|
  {
    if p != [] {
      SplitPrepend(p[1..], s, sep);
      assert (p + s)[0] == p[0] && p[0] != sep;
      assert (p + s)[1..] == p[1..] + s;
      var rest := Split(p[1..] + s, sep);
      assert rest[0] == p[1..] + Split(s, sep)[0];
      assert rest[1..] == Split(s, sep)[1..];
      assert Split(p + s, sep) == [[p[0]] + rest[0]] + rest[1..];
      assert [p[0]] + rest[0] == p + Split(s, sep)[0];
    } else {
      assert p + s == s;
      assert p + Split(s, sep)[0] == Split(s, sep)[0];
      assert [p + Split(s, sep)[0]] + Split(s, sep)[1..] == Split(s, sep);
    }
  }

  /** Splitting a join of separator-free pieces gives back the pieces. */
  lemma {:induction false} SplitJoin(parts: seq<string>, sep: char)
    requires |parts| >= 1
    requires forall i :: 0 <= i < |parts| ==> sep !in parts[i]
    ensures Split(Join(parts, sep), sep) == parts
    decreases |parts|
  {
    if |parts| == 1 {
      SplitPrepend(parts[0], [], sep);
      assert parts[0] + [] == parts[0];
    } else {
      var tail := Join(parts[1..], sep);
      SplitJoin(parts[1..], sep);
      SplitPrepend(parts[0], [sep] + tail, sep);
      assert parts[0] + [sep] + tail == parts[0] + ([sep] + tail);
      assert ([sep] + tail)[1..] == tail;
      assert Split([sep] + tail, sep) == [[]] + parts[1..];
      assert parts[0] + [] == parts[0];
    }
  }

  /** Two keys split into the same pieces only when they are the same key. */
  lemma SplitInjective(a: string, b: string, sep: char)
    ensures Split(a, sep) == Split(b, sep) ==> a == b
  {
    JoinSplit(a, sep);
    JoinSplit(b, sep);
  }

  /**
   * Following a path of property names from a value: a missing property, or a
   * property read on a string, yields None (JavaScript's `undefined`).
   */
  function WalkPath(n: Node, path: seq<string>): (r: Option<Node>)
    ensures path == [] ==> r == Some(n)
    ensures path != [] && n.Leaf? ==> r.None?
    ensures r.Some? && path != [] ==> n.Branch? && path[0] in n.children
    decreases |path|
  {
    if path == [] then Some(n)
    else
      match n
      case Leaf(_) => None
      case Branch(children) =>
        if path[0] in children then WalkPath(children[path[0]], path[1..]) else None
  }

  /** Walking `p + q` is walking `p` and then walking `q` from where `p` ended. */
  lemma {:induction false} WalkAppend(n: Node, p: seq<string>, q: seq<string>)
    ensures WalkPath(n, p + q) == match WalkPath(n, p) case None => None case Some(m) => WalkPath(m, q)
    decreases |p|
  {
    if p != [] {
      assert (p + q)[0] == p[0];
      assert (p + q)[1..] == p[1..] + q;
      if n.Branch? && p[0] in n.children {
        WalkAppend(n.children[p[0]], p[1..], q);
      }
    } else {
      assert p + q == q;
    }
  }
}
