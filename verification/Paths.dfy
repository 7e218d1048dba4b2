/** Canonical paths (src/path.rs).

    A path buffer is a byte sequence closed by a NUL. Its meaning is a list of
    components: every component is preceded by one separator. The rest of the
    project works on component lists; the lemmas here say why that is sound: byte
    equality, `is_parent_of`, `parent`, `push` and the byte comparator all agree with
    the corresponding notion on component lists. */
module Paths {

  type Byte = x: int | 0 <= x < 256
  type Name = seq<Byte>
  type Path = seq<Name>

  const SEPARATOR: Byte := 47
  const NUL: Byte := 0

  datatype Ordering = Less | Equal | Greater

  // ---------------------------------------------------------------- layout

  /** A component: not empty, and free of separators and NULs. */
  ghost predicate ValidName(n: Name) {
    n != [] && SEPARATOR !in n && NUL !in n
  }

  /** A path: at least one component. The bare root directory is not a path here. */
  ghost predicate ValidPath(p: Path) {
    p != [] && forall i :: 0 <= i < |p| ==> ValidName(p[i])
  }

  /** The bytes of a path without the terminator. */
  function Bytes(p: Path): seq<Byte> {
    if p == [] then [] else [SEPARATOR] + p[0] + Bytes(p[1..])
  }

  /** The buffer that represents a path. */
  function Buffer(p: Path): seq<Byte> {
    Bytes(p) + [NUL]
  }

  // ------------------------------------------------- operations on buffers

  function StripNul(buf: seq<Byte>): seq<Byte> {
    if buf != [] && buf[|buf| - 1] == NUL then buf[..|buf| - 1] else buf
  }

  function Rank(b: Byte): nat {
    if b == SEPARATOR then 0 else b + 1
  }

  function CompareInt(a: int, b: int): Ordering {
    if a < b then Less else if a == b then Equal else Greater
  }

  /** Lexicographic order on ranked bytes: what the comparator means. */
  function CompareBytes(a: seq<Byte>, b: seq<Byte>): Ordering {
    if a == [] then (if b == [] then Equal else Less)
    else if b == [] then Greater
    else if a[0] == b[0] then CompareBytes(a[1..], b[1..])
    else CompareInt(Rank(a[0]), Rank(b[0]))
  }

  /** The comparator: one pass over the common length. */
  method Compare(lhs: seq<Byte>, rhs: seq<Byte>) returns (r: Ordering)
    ensures r == CompareBytes(StripNul(lhs), StripNul(rhs))
  {
    var l := StripNul(lhs);
    var s := StripNul(rhs);
    var common := if |l| < |s| then |l| else |s|;
    for i := 0 to common
      invariant CompareBytes(l, s) == CompareBytes(l[i..], s[i..])
    {
      if l[i] != s[i] {
        return CompareInt(Rank(l[i]), Rank(s[i]));
      }
    }
    return CompareInt(|l|, |s|);
  }

  predicate IsParentOf(self: seq<Byte>, other: seq<Byte>)
    requires self != [] && other != []
  {
    var mine := self[..|self| - 1];
    mine <= other[..|other| - 1] && other[|mine|] == SEPARATOR
  }

  /** Everything before the last separator, if there is one. */
  method Parent(buf: seq<Byte>) returns (found: bool, parent: seq<Byte>)
    ensures found == (SEPARATOR in buf)
    ensures found ==> parent < buf && buf[|parent|] == SEPARATOR
    ensures found ==> SEPARATOR !in buf[|parent| + 1..]
  {
    var i := |buf|;
    while i > 0
      invariant 0 <= i <= |buf|
      invariant SEPARATOR !in buf[i..]
    {
      i := i - 1;
      if buf[i] == SEPARATOR {
        return true, buf[..i];
      }
      assert buf[i..] == [buf[i]] + buf[i + 1..];
    }
    return false, [];
  }

  /** A growing path buffer. */
  class PathBuf {
    var buf: seq<Byte>

    constructor ()
      ensures buf == []
    {
      buf := [];
    }

    /** Appends one more component to a path (or starts one). */
    method Push(src: seq<Byte>)
      modifies this
      ensures buf == Pushed(old(buf), src)
    {
      if buf != [] {
        buf := buf[..|buf| - 1];
      }
      if src == [] || src[0] != SEPARATOR {
        buf := buf + [SEPARATOR];
      }
      buf := buf + src;
      buf := buf + [NUL];
    }
  }

  function Pushed(buf: seq<Byte>, src: seq<Byte>): seq<Byte> {
    (if buf == [] then [] else buf[..|buf| - 1])
    + (if src == [] || src[0] != SEPARATOR then [SEPARATOR] else [])
    + src + [NUL]
  }

  method Join(self: seq<Byte>, other: seq<Byte>) returns (res: PathBuf)
    ensures fresh(res) && res.buf == Pushed(self, other)
  {
    res := new PathBuf();
    if self != [] {
      res.buf := self;
    }
    res.Push(other);
  }

  // --------------------------------------------------- order on components

  function CompareNames(a: Name, b: Name): Ordering {
    if a == [] then (if b == [] then Equal else Less)
    else if b == [] then Greater
    else if a[0] == b[0] then CompareNames(a[1..], b[1..])
    else CompareInt(a[0], b[0])
  }

  /** Component-wise lexicographic order: a directory precedes what lies below it. */
  function ComparePaths(p: Path, q: Path): Ordering {
    if p == [] then (if q == [] then Equal else Less)
    else if q == [] then Greater
    else if p[0] == q[0] then ComparePaths(p[1..], q[1..])
    else CompareNames(p[0], q[0])
  }

  predicate Before(p: Path, q: Path) {
    ComparePaths(p, q) == Less
  }

  // ------------------------------------------------------------ the lemmas

  /** Names followed by the end of the path, or by a separator. */
  ghost predicate Tail(r: seq<Byte>) {
    r == [] || r[0] == SEPARATOR
  }

  lemma {:induction false} CompareSegments(a: Name, r: seq<Byte>, b: Name, s: seq<Byte>)
    requires SEPARATOR !in a && SEPARATOR !in b && Tail(r) && Tail(s)
    ensures CompareBytes(a + r, b + s) == if a == b then CompareBytes(r, s) else CompareNames(a, b)
  {
    if a == [] {
      assert a + r == r;
      if b == [] { assert b + s == s; } else { assert (b + s)[0] == b[0]; }
    } else if b == [] {
      assert b + s == s;
      assert (a + r)[0] == a[0];
    } else {
      assert (a + r)[0] == a[0] && (b + s)[0] == b[0];
      assert (a + r)[1..] == a[1..] + r && (b + s)[1..] == b[1..] + s;
      if a[0] == b[0] {
        CompareSegments(a[1..], r, b[1..], s);
        assert a == [a[0]] + a[1..] && b == [b[0]] + b[1..];
      }
    }
  }

  lemma {:induction false} BytesTail(p: Path)
    ensures Tail(Bytes(p))
  {
    if p != [] { assert Bytes(p)[0] == SEPARATOR; }
  }

  /** On paths the byte comparator is the component order. */
  lemma {:induction false} ComparatorIsComponentOrder(p: Path, q: Path)
    requires forall i :: 0 <= i < |p| ==> SEPARATOR !in p[i]
    requires forall i :: 0 <= i < |q| ==> SEPARATOR !in q[i]
    ensures CompareBytes(Bytes(p), Bytes(q)) == ComparePaths(p, q)
  {
    BytesTail(p);
    BytesTail(q);
    if p != [] && q != [] {
      var r, s := Bytes(p[1..]), Bytes(q[1..]);
      assert Bytes(p)[1..] == p[0] + r && Bytes(q)[1..] == q[0] + s;
      BytesTail(p[1..]);
      BytesTail(q[1..]);
      CompareSegments(p[0], r, q[0], s);
      ComparatorIsComponentOrder(p[1..], q[1..]);
    }
  }

  lemma {:induction false} NoNulAtEnd(p: Path)
    requires ValidPath(p)
    ensures Bytes(p) != [] && Bytes(p)[|Bytes(p)| - 1] != NUL
  {
    var rest := Bytes(p[1..]);
    assert Bytes(p) == [SEPARATOR] + p[0] + rest;
    assert ValidName(p[0]);
    if |p| > 1 { NoNulAtEnd(p[1..]); }
  }

  /** Two path buffers compare as their component lists, with or without the closing NUL. */
  lemma {:induction false} BuffersCompareAsPaths(p: Path, q: Path)
    requires ValidPath(p) && ValidPath(q)
    ensures CompareBytes(StripNul(Buffer(p)), StripNul(Buffer(q))) == ComparePaths(p, q)
    ensures CompareBytes(StripNul(Bytes(p)), StripNul(Buffer(q))) == ComparePaths(p, q)
    ensures CompareBytes(StripNul(Buffer(p)), StripNul(Bytes(q))) == ComparePaths(p, q)
  {
    ComparatorIsComponentOrder(p, q);
    NoNulAtEnd(p);
    NoNulAtEnd(q);
  }

  /** The comparator says `Equal` exactly for equal byte strings. */
  lemma {:induction false} CompareBytesEqual(a: seq<Byte>, b: seq<Byte>)
    ensures CompareBytes(a, b) == Equal <==> a == b
  {
    if a != [] && b != [] {
      CompareBytesEqual(a[1..], b[1..]);
      assert a == [a[0]] + a[1..] && b == [b[0]] + b[1..];
    }
  }

  lemma {:induction false} CompareBytesFlip(a: seq<Byte>, b: seq<Byte>)
    ensures CompareBytes(a, b) == Less <==> CompareBytes(b, a) == Greater
  {
    if a != [] && b != [] { CompareBytesFlip(a[1..], b[1..]); }
  }

  lemma {:induction false} CompareBytesTransitive(a: seq<Byte>, b: seq<Byte>, c: seq<Byte>)
    requires CompareBytes(a, b) == Less && CompareBytes(b, c) == Less
    ensures CompareBytes(a, c) == Less
  {
    if a != [] && a[0] == b[0] && b[0] == c[0] {
      CompareBytesTransitive(a[1..], b[1..], c[1..]);
    }
  }

  /** The comparator is a strict total order on all byte strings. */
  lemma {:induction false} ComparatorTotalOrder(a: seq<Byte>, b: seq<Byte>, c: seq<Byte>)
    ensures CompareBytes(a, b) == Equal <==> a == b
    ensures CompareBytes(a, b) == Less <==> CompareBytes(b, a) == Greater
    ensures CompareBytes(a, b) == Less && CompareBytes(b, c) == Less ==> CompareBytes(a, c) == Less
  {
    CompareBytesEqual(a, b);
    CompareBytesFlip(a, b);
    if CompareBytes(a, b) == Less && CompareBytes(b, c) == Less { CompareBytesTransitive(a, b, c); }
  }

  // The same three facts for names and for component lists.

  lemma {:induction false} CompareNamesOrder(a: Name, b: Name)
    ensures CompareNames(a, b) == Equal <==> a == b
    ensures CompareNames(a, b) == Less <==> CompareNames(b, a) == Greater
  {
    if a != [] && b != [] {
      CompareNamesOrder(a[1..], b[1..]);
      assert a == [a[0]] + a[1..] && b == [b[0]] + b[1..];
    }
  }

  lemma {:induction false} CompareNamesTransitive(a: Name, b: Name, c: Name)
    requires CompareNames(a, b) == Less && CompareNames(b, c) == Less
    ensures CompareNames(a, c) == Less
  {
    if a != [] && a[0] == b[0] && b[0] == c[0] {
      CompareNamesTransitive(a[1..], b[1..], c[1..]);
    }
  }

  lemma {:induction false} BeforeTotal(p: Path, q: Path)
    ensures ComparePaths(p, q) == Equal <==> p == q
    ensures Before(p, q) <==> ComparePaths(q, p) == Greater
  {
    if p != [] && q != [] {
      CompareNamesOrder(p[0], q[0]);
      BeforeTotal(p[1..], q[1..]);
      assert p == [p[0]] + p[1..] && q == [q[0]] + q[1..];
    }
  }

  lemma {:induction false} BeforeTransitive(p: Path, q: Path, r: Path)
    requires Before(p, q) && Before(q, r)
    ensures Before(p, r)
  {
    if p != [] {
      CompareNamesOrder(p[0], q[0]);
      CompareNamesOrder(q[0], r[0]);
      CompareNamesOrder(p[0], r[0]);
      if p[0] == q[0] && q[0] == r[0] {
        BeforeTransitive(p[1..], q[1..], r[1..]);
      } else if p[0] != q[0] && q[0] != r[0] {
        CompareNamesTransitive(p[0], q[0], r[0]);
      }
    }
  }

  /** Tree order: a directory sorts before everything below it. */
  lemma {:induction false} AncestorFirst(p: Path, q: Path)
    requires p < q
    ensures Before(p, q)
  {
    if p != [] { AncestorFirst(p[1..], q[1..]); }
  }

  /** The descendants of `p`, together with `p`, are one contiguous run of the order. */
  lemma {:induction false} DescendantsContiguous(p: Path, a: Path, x: Path, b: Path)
    requires p <= a && p <= b && !Before(x, a) && !Before(b, x)
    ensures p <= x
  {
    if p != [] {
      BeforeTotal(a, x);
      BeforeTotal(x, b);
      assert x != [];
      CompareNamesOrder(a[0], x[0]);
      CompareNamesOrder(x[0], b[0]);
      DescendantsContiguous(p[1..], a[1..], x[1..], b[1..]);
      assert p == [p[0]] + p[1..] && x == [x[0]] + x[1..];
    }
  }

  lemma {:induction false} ExtendedName(a: Name, b: Name)
    requires a < b
    ensures CompareNames(a, b) == Less
  {
    if a != [] { ExtendedName(a[1..], b[1..]); }
  }

  /** A sibling whose name extends that of `p` sorts after everything below `p`. */
  lemma {:induction false} LongerSiblingLast(dir: Path, name: Name, longer: Name, x: Path)
    requires name < longer && dir + [name] <= x
    ensures Before(x, dir + [longer])
  {
    if dir == [] {
      assert x[0] == name;
      ExtendedName(name, longer);
      assert dir + [longer] == [longer];
    } else {
      assert (dir + [name])[0] == dir[0];
      assert (dir + [name])[1..] == dir[1..] + [name];
      assert (dir + [longer])[1..] == dir[1..] + [longer];
      assert dir[1..] + [name] <= x[1..];
      LongerSiblingLast(dir[1..], name, longer, x[1..]);
    }
  }

  /** Different paths have different bytes. */
  lemma {:induction false} BytesInjective(p: Path, q: Path)
    requires forall i :: 0 <= i < |p| ==> SEPARATOR !in p[i]
    requires forall i :: 0 <= i < |q| ==> SEPARATOR !in q[i]
    ensures Bytes(p) == Bytes(q) <==> p == q
  {
    ComparatorIsComponentOrder(p, q);
    CompareBytesEqual(Bytes(p), Bytes(q));
    BeforeTotal(p, q);
  }

  lemma {:induction false} BytesAppend(p: Path, q: Path)
    ensures Bytes(p + q) == Bytes(p) + Bytes(q)
  {
    if p == [] {
      assert p + q == q;
    } else {
      assert (p + q)[1..] == p[1..] + q;
      BytesAppend(p[1..], q);
    }
  }

  /** Of two names with the same continuation rule, a common prefix up to a separator
      forces equality. */
  lemma {:induction false} SegmentPrefix(a: Name, r: seq<Byte>, b: Name, s: seq<Byte>)
    requires SEPARATOR !in a && SEPARATOR !in b && Tail(r) && Tail(s)
    requires a + r <= b + s
    requires r == [] ==> |b + s| > |a| && (b + s)[|a|] == SEPARATOR
    ensures a == b && r <= s
  {
    if a == [] {
      assert a + r == r;
      assert b == [] ==> b + s == s;
    } else {
      assert (a + r)[0] == a[0];
      assert b == [] ==> b + s == s;
      assert (a + r)[1..] == a[1..] + r && (b + s)[1..] == b[1..] + s;
      SegmentPrefix(a[1..], r, b[1..], s);
      assert a == [a[0]] + a[1..] && b == [b[0]] + b[1..];
    }
  }

  lemma {:induction false} BytesPrefix(p: Path, q: Path)
    requires forall i :: 0 <= i < |p| ==> SEPARATOR !in p[i]
    requires forall i :: 0 <= i < |q| ==> SEPARATOR !in q[i]
    requires Bytes(p) <= Bytes(q) && |Bytes(q)| > |Bytes(p)| && Bytes(q)[|Bytes(p)|] == SEPARATOR
    ensures p < q
  {
    if p != [] {
      var r, s := Bytes(p[1..]), Bytes(q[1..]);
      BytesTail(p[1..]);
      BytesTail(q[1..]);
      assert Bytes(p)[1..] == p[0] + r && Bytes(q)[1..] == q[0] + s;
      SegmentPrefix(p[0], r, q[0], s);
      assert s[|r|] == Bytes(q)[|Bytes(p)|];
      BytesPrefix(p[1..], q[1..]);
      assert p == [p[0]] + p[1..] && q == [q[0]] + q[1..];
    }
  }

  /** `is_parent_of` on buffers is the strict-ancestor relation. */
  lemma {:induction false} IsParentOfMeansAncestor(p: Path, q: Path)
    requires ValidPath(p) && ValidPath(q)
    ensures IsParentOf(Buffer(p), Buffer(q)) <==> p < q
  {
    if p < q {
      var rest := q[|p|..];
      assert q == p + rest;
      BytesAppend(p, rest);
    }
    if IsParentOf(Buffer(p), Buffer(q)) {
      BytesPrefix(p, q);
    }
  }

  function LastSeparator(s: seq<Byte>): int {
    if s == [] then -1
    else if s[|s| - 1] == SEPARATOR then |s| - 1
    else LastSeparator(s[..|s| - 1])
  }

  lemma {:induction false} LastSeparatorUnique(s: seq<Byte>, i: nat)
    requires i < |s| && s[i] == SEPARATOR && SEPARATOR !in s[i + 1..]
    ensures LastSeparator(s) == i
  {
    if i < |s| - 1 {
      var init := s[..|s| - 1];
      assert s[|s| - 1] == s[i + 1..][|s| - i - 2];
      assert s[i + 1..] == init[i + 1..] + [s[|s| - 1]];
      LastSeparatorUnique(init, i);
    }
  }

  lemma {:induction false} LastOf(dir: seq<Byte>, name: Name)
    requires SEPARATOR !in name
    ensures LastSeparator(dir + [SEPARATOR] + name + [NUL]) == |dir|
  {
    var s := dir + [SEPARATOR] + name + [NUL];
    assert s[|dir| + 1..] == name + [NUL];
    LastSeparatorUnique(s, |dir|);
  }

  /** The buffer's parent is the path without its last component. */
  lemma {:induction false} ParentMeansDropLast(p: Path, parent: seq<Byte>)
    requires ValidPath(p)
    requires parent < Buffer(p) && Buffer(p)[|parent|] == SEPARATOR
    requires SEPARATOR !in Buffer(p)[|parent| + 1..]
    ensures parent == Bytes(p[..|p| - 1])
  {
    var dir, name := p[..|p| - 1], p[|p| - 1];
    assert p == dir + [name] && ValidName(name);
    BytesAppend(dir, [name]);
    BytesOne(name);
    hide Bytes, ValidName, LastSeparator;
    assert Buffer(p) == Bytes(dir) + [SEPARATOR] + name + [NUL];
    CutAtLast(Bytes(dir), name, parent);
  }

  lemma {:induction false} CutAtLast(dir: seq<Byte>, name: Name, parent: seq<Byte>)
    requires SEPARATOR !in name
    requires var s := dir + [SEPARATOR] + name + [NUL];
             parent < s && s[|parent|] == SEPARATOR && SEPARATOR !in s[|parent| + 1..]
    ensures parent == dir
  {
    hide LastSeparator;
    var s := dir + [SEPARATOR] + name + [NUL];
    LastOf(dir, name);
    LastSeparatorUnique(s, |parent|);
    assert s[..|dir|] == dir;
  }

  /** Pushing a name onto a path buffer appends one component. */
  lemma {:induction false} PushedIsAppend(p: Path, name: Name)
    requires ValidName(name)
    ensures Pushed(if p == [] then [] else Buffer(p), name) == Buffer(p + [name])
  {
    BytesAppend(p, [name]);
    BytesOne(name);
    var before := if p == [] then [] else Bytes(p);
    hide Bytes;
    assert name[0] != SEPARATOR;
    assert (before + [NUL])[..|before + [NUL]| - 1] == before;
  }

  /** Pushing a whole path, with or without its leading separator, onto an empty buffer or
      onto that of another path gives the buffer of the two one after the other. This is how
      every path that a walk yields is built. */
  lemma {:induction false} PushedPathIsJoined(q: Path, p: Path)
    requires (q == [] || ValidPath(q)) && ValidPath(p)
    ensures var before := if q == [] then [] else Buffer(q);
            && Pushed(before, Bytes(p)) == Buffer(q + p)
            && Pushed(before, Bytes(p)[1..]) == Buffer(q + p)
  {
    BytesAppend(q, p);
    BytesStart(p);
    PushedBytes(Bytes(q), Bytes(p));
    if q == [] { BytesOne([]); }
  }

  lemma {:induction false} BytesStart(p: Path)
    requires ValidPath(p)
    ensures |Bytes(p)| > 1 && Bytes(p)[0] == SEPARATOR && Bytes(p)[1] != SEPARATOR
  {
    assert ValidName(p[0]);
    assert p[0][0] in p[0];
    assert Bytes(p)[1] == p[0][0];
  }

  lemma {:induction false} PushedBytes(b: seq<Byte>, src: seq<Byte>)
    requires |src| > 1 && src[0] == SEPARATOR && src[1] != SEPARATOR
    ensures Pushed(b + [NUL], src) == b + src + [NUL] && Pushed(b + [NUL], src[1..]) == b + src + [NUL]
    ensures Pushed([], src) == src + [NUL] && Pushed([], src[1..]) == src + [NUL]
  {
    assert (b + [NUL])[..|b + [NUL]| - 1] == b;
    assert [SEPARATOR] + src[1..] == src;
    assert b + [SEPARATOR] + src[1..] == b + src;
  }

  lemma {:induction false} BytesOne(name: Name)
    ensures Bytes([name]) == [SEPARATOR] + name && Bytes([]) == []
  {
    assert [name][1..] == [];
  }
}
