/**
 * The field-selection tree: dotted selection paths turned into a tree of named
 * nodes rooted at the message name. `Field` is the mutable node; `Selector` is
 * the value a tree denotes, with each node's children in the order the node's
 * map hands them out.
 */
module SelectionTree {
  import opened Wrappers

  /** A selection-tree node as a value; a node with no sub-fields selects everything below it. */
  datatype Selector = Selector(name: string, subFields: seq<Selector>)

  function Sum(xs: seq<nat>): nat
  {
    if xs == [] then 0 else xs[0] + Sum(xs[1..])
  }

  lemma {:induction false} SumAtLeastEach(xs: seq<nat>, i: int)
    requires 0 <= i < |xs|
    ensures xs[i] <= Sum(xs)
  {
    if i > 0 {
      SumAtLeastEach(xs[1..], i - 1);
    }
  }

  /** The number of nodes of a selector tree. */
  function Size(s: Selector): (n: nat)
    ensures n >= 1
  {
    1 + Sum(seq(|s.subFields|, j requires 0 <= j < |s.subFields| => Size(s.subFields[j])))
  }

  lemma SizeOfChild(s: Selector, i: int)
    requires 0 <= i < |s.subFields|
    ensures Size(s.subFields[i]) < Size(s)
  {
    var xs := seq(|s.subFields|, j requires 0 <= j < |s.subFields| => Size(s.subFields[j]));
    SumAtLeastEach(xs, i);
  }

  lemma SizeOfLeaf(s: Selector)
    requires s.subFields == []
    ensures Size(s) == 1
  {
    assert seq(|s.subFields|, j requires 0 <= j < |s.subFields| => Size(s.subFields[j])) == [];
  }

  function SelectorNames(ss: seq<Selector>): (r: seq<string>)
  {
    seq(|ss|, j requires 0 <= j < |ss| => ss[j].name)
  }

  // ---------------------------------------------------------------------------
  // Splitting a path on dots (`StringUtils.split(path, ".")`).
  // ---------------------------------------------------------------------------

  /** The tokens of `s` between dots, empty ones dropped; `cur` is the token read so far. */
  function Tokens(s: string, cur: string): seq<string>
    decreases |s|
  {
    if s == [] then (if cur == [] then [] else [cur])
    else if s[0] == '.' then (if cur == [] then [] else [cur]) + Tokens(s[1..], [])
    else Tokens(s[1..], cur + [s[0]])
  }

  /** A segment: non-empty and free of dots. */
  predicate IsSegment(t: string)
  {
    t != [] && '.' !in t
  }

  lemma {:induction false} TokensAreSegments(s: string, cur: string)
    requires '.' !in cur
    ensures forall j :: 0 <= j < |Tokens(s, cur)| ==> IsSegment(Tokens(s, cur)[j])
    decreases |s|
  {
    if s != [] {
      if s[0] == '.' {
        TokensAreSegments(s[1..], []);
      } else {
        TokensAreSegments(s[1..], cur + [s[0]]);
      }
    }
  }

  /** `StringUtils.split(path, ".")`: the maximal dot-free runs of `path`, in order; every one is a segment. */
  function Split(path: string): (r: seq<string>)
    ensures forall j :: 0 <= j < |r| ==> IsSegment(r[j])
  {
    TokensAreSegments(path, []);
    Tokens(path, [])
  }

  /** Segments joined by single dots: the canonical spelling of a path. */
  function Join(ts: seq<string>): string
  {
    if ts == [] then []
    else if |ts| == 1 then ts[0]
    else ts[0] + "." + Join(ts[1..])
  }

  /** Reading a dot-free stretch only extends the current token. */
  lemma {:induction false} TokensSkip(t: string, rest: string, cur: string)
    requires '.' !in t
    ensures Tokens(t + rest, cur) == Tokens(rest, cur + t)
    decreases |t|
  {
    if t == [] {
      assert t + rest == rest && cur + t == cur;
    } else {
      assert (t + rest)[0] == t[0];
      assert (t + rest)[1..] == t[1..] + rest;
      TokensSkip(t[1..], rest, cur + [t[0]]);
      assert cur + [t[0]] + t[1..] == cur + t;
    }
  }

  /** Splitting at a dot: the tokens before it, then the tokens after it. */
  lemma {:induction false} TokensAtDot(s: string, u: string, cur: string)
    ensures Tokens(s + ['.'] + u, cur) == Tokens(s, cur) + Tokens(u, [])
    decreases |s|
  {
    if s == [] {
      assert s + ['.'] + u == ['.'] + u && (['.'] + u)[1..] == u;
    } else {
      assert (s + ['.'] + u)[0] == s[0];
      assert (s + ['.'] + u)[1..] == s[1..] + ['.'] + u;
      if s[0] == '.' {
        TokensAtDot(s[1..], u, []);
      } else {
        TokensAtDot(s[1..], u, cur + [s[0]]);
      }
    }
  }

  /**
   * Every dot of a path separates its segments: the path splits into the
   * segments of the text before any one of its dots followed by those of the
   * text after it. With `SplitOfSegment` and `Split("") == []` this fixes
   * `Split` on every string.
   */
  lemma SplitAtDot(s: string, u: string)
    ensures Split(s + "." + u) == Split(s) + Split(u)
  {
    TokensAtDot(s, u, []);
  }

  /** A non-empty dot-free path is one segment. */
  lemma SplitOfSegment(s: string)
    requires IsSegment(s)
    ensures Split(s) == [s]
  {
    TokensSkip(s, [], []);
    assert s + [] == s && [] + s == s;
  }

  /** A doubled dot gives no empty segment. */
  lemma SplitDropsEmptySegments()
    ensures Split("a..b") == ["a", "b"]
  {
    assert "b"[1..] == "" && [] + ['b'] == "b" && Tokens("b", []) == ["b"];
    assert ".b"[1..] == "b" && Tokens(".b", []) == ["b"];
    assert "..b"[1..] == ".b" && Tokens("..b", "a") == ["a", "b"];
    assert "a..b"[1..] == "..b" && [] + ['a'] == "a";
  }

  /** A path of only dots, or the empty path, selects nothing. */
  lemma SplitOfDotsIsEmpty()
    ensures Split("..") == [] && Split("") == []
  {
    assert "."[1..] == "" && Tokens(".", []) == [];
    assert ".."[1..] == ".";
  }

  /** Splitting the canonical spelling of a segment list gives that list back. */
  lemma {:induction false} SplitJoin(ts: seq<string>)
    requires forall j :: 0 <= j < |ts| ==> IsSegment(ts[j])
    ensures Split(Join(ts)) == ts
    decreases |ts|
  {
    if |ts| == 1 {
      TokensSkip(ts[0], [], []);
      assert ts[0] + [] == ts[0];
    } else if |ts| > 1 {
      var rest := "." + Join(ts[1..]);
      assert Join(ts) == ts[0] + rest;
      TokensSkip(ts[0], rest, []);
      assert [] + ts[0] == ts[0];
      assert rest[0] == '.' && rest[1..] == Join(ts[1..]);
      assert Tokens(rest, ts[0]) == [ts[0]] + Tokens(Join(ts[1..]), []);
      SplitJoin(ts[1..]);
      assert [ts[0]] + ts[1..] == ts;
    }
  }

  // ---------------------------------------------------------------------------
  // The paths a list of selection paths stands for.
  // ---------------------------------------------------------------------------

  /** Every prefix of a segment path, the empty one included. */
  ghost function Prefixes(segs: seq<string>): set<seq<string>>
  {
    set i | 0 <= i <= |segs| :: segs[..i]
  }

  /** The node paths of the tree built from `paths`: the root's empty path and every prefix of every split path. */
  ghost function PathsOf(paths: seq<string>): set<seq<string>>
    decreases |paths|
  {
    if paths == [] then {[]}
    else PathsOf(paths[..|paths| - 1]) + Prefixes(Split(paths[|paths| - 1]))
  }

  /** A node path stands for a list of paths iff it is the root's or a prefix of one of them. */
  lemma {:induction false} PathsOfMembers(paths: seq<string>, q: seq<string>)
    ensures q in PathsOf(paths) <==> q == [] || exists j :: 0 <= j < |paths| && q in Prefixes(Split(paths[j]))
    decreases |paths|
  {
    if paths != [] {
      var init := paths[..|paths| - 1];
      PathsOfMembers(init, q);
      assert forall j :: 0 <= j < |init| ==> init[j] == paths[j];
      if q in PathsOf(paths) && q != [] && q !in PathsOf(init) {
        assert q in Prefixes(Split(paths[|paths| - 1]));
      }
    }
  }

  lemma PathsOfMonotone(ps: seq<string>, qs: seq<string>)
    requires forall p :: p in ps ==> p in qs
    ensures PathsOf(ps) <= PathsOf(qs)
  {
    forall q | q in PathsOf(ps)
      ensures q in PathsOf(qs)
    {
      PathsOfMembers(ps, q);
      PathsOfMembers(qs, q);
      if q != [] {
        var j :| 0 <= j < |ps| && q in Prefixes(Split(ps[j]));
        assert ps[j] in qs;
      }
    }
  }

  /** The paths stood for depend only on which selection paths are listed: not on order, not on repeats. */
  lemma PathsOfIgnoresOrder(ps: seq<string>, qs: seq<string>)
    requires forall p :: p in ps <==> p in qs
    ensures PathsOf(ps) == PathsOf(qs)
  {
    PathsOfMonotone(ps, qs);
    PathsOfMonotone(qs, ps);
  }

  // ---------------------------------------------------------------------------
  // The mutable node and its tree invariant.
  // ---------------------------------------------------------------------------

  /** A selection-tree node: its name and its children by name (`Map<String, Field> subFields`). */
  class Field {
    const name: string
    var subFields: map<string, Field>

    /** A node with no children. */
    constructor (name: string)
      ensures this.name == name && subFields == map[]
    {
      this.name := name;
      subFields := map[];
    }

    /** `putIfAbsent` under the child's own name: a child already stored under that name is kept and returned. */
    method PutSubFieldIfAbsent(field: Field) returns (prev: Field?)
      modifies this
      ensures field.name in old(subFields) ==> prev == old(subFields)[field.name] && subFields == old(subFields)
      ensures field.name !in old(subFields) ==> prev == null && subFields == old(subFields)[field.name := field]
    {
      if field.name in subFields {
        prev := subFields[field.name];
      } else {
        prev := null;
        subFields := subFields[field.name := field];
      }
    }

    /** Every child is stored under its own name. */
    predicate KeyedByName()
      reads this
    {
      forall k :: k in subFields ==> subFields[k].name == k
    }

    /** `containsKey`: when children are keyed by their names, exactly when a child of that name exists. */
    function Contains(n: string): (b: bool)
      reads this
      ensures KeyedByName() ==> (b <==> exists c :: c in subFields.Values && c.name == n)
    {
      n in subFields
    }

    /**
     * `values()`: every child exactly once, in an order the model leaves open;
     * `keys` are the names they are stored under, in the same order.
     */
    method GetSubFields() returns (children: seq<Field>, ghost keys: seq<string>)
      ensures |children| == |subFields| && forall c :: c in children <==> c in subFields.Values
      ensures |keys| == |subFields|
      ensures forall j :: 0 <= j < |keys| ==> keys[j] in subFields && children[j] == subFields[keys[j]]
      ensures forall k :: k in subFields <==> k in keys
      ensures forall i, j :: 0 <= i < j < |keys| ==> keys[i] != keys[j]
    {
      children, keys := [], [];
      var rest := subFields.Keys;
      while rest != {}
        invariant rest <= subFields.Keys
        invariant |children| == |keys|
        invariant forall j :: 0 <= j < |keys| ==> keys[j] in subFields && keys[j] !in rest && children[j] == subFields[keys[j]]
        invariant forall k :: k in subFields ==> k in rest || k in keys
        invariant forall i, j :: 0 <= i < j < |keys| ==> keys[i] != keys[j]
        invariant |keys| + |rest| == |subFields|
        decreases |rest|
      {
        var k :| k in rest;
        children, keys := children + [subFields[k]], keys + [k];
        rest := rest - {k};
      }
      forall c | c in subFields.Values
        ensures c in children
      {
        var k :| k in subFields && subFields[k] == c;
        var j :| 0 <= j < |keys| && keys[j] == k;
        assert children[j] == c;
      }
    }
  
    /**
     * One step of `parse`'s inner loop at this node: offer a fresh node named
     * `k` with `putSubFieldIfAbsent` and go on at whichever node is then stored
     * under `k`, one segment below this one.
     */
    method Descend(k: string, ghost root: Field, ghost pathOf: map<Field, seq<string>>)
      returns (next: Field, ghost pathOf': map<Field, seq<string>>)
      requires IsTree(root, pathOf) && this in pathOf
      modifies this
      ensures IsTree(root, pathOf')
      ensures next in pathOf' && pathOf'[next] == pathOf[this] + [k]
      ensures pathOf'.Values == pathOf.Values + {pathOf[this] + [k]}
      ensures forall n :: n in pathOf ==> n in pathOf' && pathOf'[n] == pathOf[n]
      ensures forall n :: n in pathOf' && n !in pathOf ==> fresh(n)
      ensures pathOf[this] + [k] in pathOf.Values ==> pathOf' == pathOf && subFields == old(subFields)
    {
      ChildOfPath(root, pathOf, this, k);
      SnapLinked(pathOf);
      SnapHungFrom(pathOf);
      ghost var kids := Snap(pathOf);
      var newSub := new Field(k);
      var prev := PutSubFieldIfAbsent(newSub);
      if prev == null {
        next := newSub;
        pathOf' := pathOf[newSub := pathOf[this] + [k]];
        AttachTree(root, pathOf, kids, this, k, newSub);
      } else {
        next := prev;
        pathOf' := pathOf;
      }
    }

    /**
     * The body of `parse`'s loop for one split path: walk down from this root
     * segment by segment, adding a fresh node wherever no child of that name
     * exists yet. The tree afterwards holds every prefix of the path, nothing
     * else is added, and a path already present changes nothing.
     */
    method Insert(segs: seq<string>, ghost pathOf: map<Field, seq<string>>)
      returns (ghost pathOf': map<Field, seq<string>>)
      requires IsTree(this, pathOf)
      modifies pathOf.Keys
      ensures IsTree(this, pathOf')
      ensures pathOf'.Values == pathOf.Values + Prefixes(segs)
      ensures forall n :: n in pathOf ==> n in pathOf' && pathOf'[n] == pathOf[n]
      ensures forall n :: n in pathOf' && n !in pathOf ==> fresh(n)
      ensures Prefixes(segs) <= pathOf.Values ==>
                pathOf' == pathOf && forall n :: n in pathOf ==> n.subFields == old(n.subFields)
    {
      pathOf' := pathOf;
      var cur := this;
      var j := 0;
      while j < |segs|
        invariant 0 <= j <= |segs|
        invariant IsTree(this, pathOf')
        invariant cur in pathOf' && pathOf'[cur] == segs[..j]
        invariant pathOf'.Values == pathOf.Values + Prefixes(segs[..j])
        invariant forall n :: n in pathOf ==> n in pathOf' && pathOf'[n] == pathOf[n]
        invariant forall n :: n in pathOf' && n !in pathOf ==> fresh(n)
        invariant Prefixes(segs) <= pathOf.Values ==>
                    pathOf' == pathOf && forall n :: n in pathOf ==> n.subFields == old(n.subFields)
      {
        PrefixesStep(segs, j);
        cur, pathOf' := cur.Descend(segs[j], this, pathOf');
        j := j + 1;
      }
      assert segs[..|segs|] == segs;
    }

    /**
     * `parse`: a root named `name` and, for each path in turn, its split
     * path inserted below it. The node paths of the result are exactly the
     * prefixes of the split paths; no paths leave the root without children.
     */
    static method Parse(name: string, paths: seq<string>) returns (root: Field, ghost pathOf: map<Field, seq<string>>)
      ensures root.name == name
      ensures IsTree(root, pathOf)
      ensures pathOf.Values == PathsOf(paths)
      ensures paths == [] ==> root.subFields == map[]
      ensures forall n :: n in pathOf ==> fresh(n)
    {
      root := new Field(name);
      pathOf := map[root := []];
      ValuesOfUpdate<Field, seq<string>>(map[], root, []);
      var i := 0;
      while i < |paths|
        invariant 0 <= i <= |paths|
        invariant root.name == name
        invariant IsTree(root, pathOf)
        invariant pathOf.Values == PathsOf(paths[..i])
        invariant forall n :: n in pathOf ==> fresh(n)
        invariant i == 0 ==> root.subFields == map[]
      {
        pathOf := root.Insert(Split(paths[i]), pathOf);
        assert paths[..i + 1][..i] == paths[..i];
        i := i + 1;
      }
      assert paths[..i] == paths;
    }

    /**
     * The selector this subtree denotes: this node's name and, in the order
     * `getSubFields` hands them out, the selectors of its children.
     */
    method ToSelector(ghost pathOf: map<Field, seq<string>>) returns (s: Selector)
      requires this in pathOf && Linked(pathOf)
      ensures Describes(s, this, pathOf)
      decreases set m | m in pathOf && |pathOf[m]| > |pathOf[this]|
    {
      var children, keys := GetSubFields();
      var subs: seq<Selector> := [];
      var j := 0;
      while j < |children|
        invariant 0 <= j <= |children| && |subs| == j
        invariant forall q :: 0 <= q < j ==> subs[q].name == keys[q] && Describes(subs[q], subFields[keys[q]], pathOf)
      {
        var c := children[j];
        assert keys[j] in subFields && c == subFields[keys[j]];
        assert c in pathOf && pathOf[c] == pathOf[this] + [keys[j]];
        DeeperShrinks(pathOf, this, c);
        var cs := c.ToSelector(pathOf);
        subs := subs + [cs];
        j := j + 1;
      }
      s := Selector(name, subs);
      assert forall q :: 0 <= q < |subs| ==> SelectorNames(subs)[q] == keys[q];
    }
  }

  /** Fewer nodes lie deeper than a child than lie deeper than its parent: the child itself is one. */
  lemma DeeperShrinks(pathOf: map<Field, seq<string>>, p: Field, c: Field)
    requires p in pathOf && c in pathOf && |pathOf[c]| == |pathOf[p]| + 1
    ensures (set m | m in pathOf && |pathOf[m]| > |pathOf[c]|) < (set m | m in pathOf && |pathOf[m]| > |pathOf[p]|)
  {
    var below := set m | m in pathOf && |pathOf[m]| > |pathOf[p]|;
    var belowChild := set m | m in pathOf && |pathOf[m]| > |pathOf[c]|;
    assert c in below && c !in belowChild;
    assert belowChild <= below;
  }

  /** The last segment of a non-root path. */
  function Last(p: seq<string>): string
    requires p != []
  {
    p[|p| - 1]
  }

  /** Each child is in the tree, stored under its name, one segment below its parent. */
  ghost predicate Linked(pathOf: map<Field, seq<string>>)
    reads pathOf.Keys
  {
    forall n, k :: n in pathOf && k in n.subFields ==>
      n.subFields[k] in pathOf && n.subFields[k].name == k && pathOf[n.subFields[k]] == pathOf[n] + [k]
  }

  /** No two nodes share a path. */
  ghost predicate Injective(pathOf: map<Field, seq<string>>)
  {
    forall n, m :: n in pathOf && m in pathOf && pathOf[n] == pathOf[m] ==> n == m
  }

  /** Every node but the root hangs below the node of its parent path. */
  ghost predicate Hung(pathOf: map<Field, seq<string>>)
    reads pathOf.Keys
  {
    forall n {:trigger Last(pathOf[n])} :: n in pathOf && pathOf[n] != [] ==>
      exists p :: p in pathOf && pathOf[p] + [Last(pathOf[n])] == pathOf[n] && Last(pathOf[n]) in p.subFields
  }

  /** `pathOf` places every node of the tree below `root` at its segment path from `root`. */
  ghost predicate IsTree(root: Field, pathOf: map<Field, seq<string>>)
    reads pathOf.Keys
  {
    root in pathOf && pathOf[root] == [] && Linked(pathOf) && Injective(pathOf) && Hung(pathOf)
  }

  lemma PrefixesStep(segs: seq<string>, j: int)
    requires 0 <= j < |segs|
    ensures Prefixes(segs[..j + 1]) == Prefixes(segs[..j]) + {segs[..j + 1]}
    ensures segs[..j] + [segs[j]] == segs[..j + 1]
    ensures segs[..j + 1] in Prefixes(segs)
  {
    var a, b := segs[..j + 1], segs[..j];
    assert a[..j + 1] == a;
    forall i | 0 <= i <= j
      ensures a[..i] == b[..i]
    {
    }
    assert forall q :: q in Prefixes(a) ==> q in Prefixes(b) + {a};
    assert forall q :: q in Prefixes(b) ==> q in Prefixes(a);
  }

  /** The children maps of the nodes, as a value. */
  ghost function Snap(pathOf: map<Field, seq<string>>): map<Field, map<string, Field>>
    reads pathOf.Keys
  {
    map n | n in pathOf :: n.subFields
  }

  /** `Linked` over a snapshot of the children maps. */
  ghost predicate LinkedIn(pathOf: map<Field, seq<string>>, kids: map<Field, map<string, Field>>)
  {
    forall n, k :: n in pathOf && n in kids && k in kids[n] ==>
      kids[n][k] in pathOf && kids[n][k].name == k && pathOf[kids[n][k]] == pathOf[n] + [k]
  }

  /** `Hung` over a snapshot of the children maps. */
  ghost predicate HungIn(pathOf: map<Field, seq<string>>, kids: map<Field, map<string, Field>>)
  {
    forall n {:trigger Last(pathOf[n])} :: n in pathOf && pathOf[n] != [] ==>
      exists p :: p in pathOf && p in kids && pathOf[p] + [Last(pathOf[n])] == pathOf[n] && Last(pathOf[n]) in kids[p]
  }

  lemma SnapLinked(pathOf: map<Field, seq<string>>)
    ensures Linked(pathOf) <==> LinkedIn(pathOf, Snap(pathOf))
  {
    var kids := Snap(pathOf);
    assert forall n :: n in pathOf ==> n in kids && kids[n] == n.subFields;
  }

  lemma SnapHungFrom(pathOf: map<Field, seq<string>>)
    requires Hung(pathOf)
    ensures HungIn(pathOf, Snap(pathOf))
  {
    var kids := Snap(pathOf);
    forall n | n in pathOf && pathOf[n] != []
      ensures exists p :: p in pathOf && p in kids && pathOf[p] + [Last(pathOf[n])] == pathOf[n] && Last(pathOf[n]) in kids[p]
    {
      var p :| p in pathOf && pathOf[p] + [Last(pathOf[n])] == pathOf[n] && Last(pathOf[n]) in p.subFields;
      assert p in kids && kids[p] == p.subFields;
    }
  }

  lemma SnapHungTo(pathOf: map<Field, seq<string>>)
    requires HungIn(pathOf, Snap(pathOf))
    ensures Hung(pathOf)
  {
    var kids := Snap(pathOf);
    forall n | n in pathOf && pathOf[n] != []
      ensures exists p :: p in pathOf && pathOf[p] + [Last(pathOf[n])] == pathOf[n] && Last(pathOf[n]) in p.subFields
    {
      var p: Field :| p in pathOf && p in kids && pathOf[p] + [Last(pathOf[n])] == pathOf[n] && Last(pathOf[n]) in kids[p];
      assert kids[p] == p.subFields;
    }
  }

  /** Hanging a new leaf named `k` below a node with no such child keeps every child linked. */
  lemma AttachLinked(pathOf: map<Field, seq<string>>, kids: map<Field, map<string, Field>>, cur: Field, k: string, leaf: Field)
    requires kids.Keys == pathOf.Keys && LinkedIn(pathOf, kids)
    requires cur in pathOf && leaf !in pathOf && leaf.name == k
    ensures LinkedIn(pathOf[leaf := pathOf[cur] + [k]], kids[cur := kids[cur][k := leaf]][leaf := map[]])
  {
    var pathOf' := pathOf[leaf := pathOf[cur] + [k]];
    var kids': map<Field, map<string, Field>> := kids[cur := kids[cur][k := leaf]][leaf := map[]];
    forall n, k' | n in pathOf' && n in kids' && k' in kids'[n]
      ensures kids'[n][k'] in pathOf' && kids'[n][k'].name == k' && pathOf'[kids'[n][k']] == pathOf'[n] + [k']
    {
      if !(n == cur && k' == k) {
        assert n != leaf && k' in kids[n] && kids'[n][k'] == kids[n][k'];
      }
    }
  }

  /** ... and every node still hangs below its parent. */
  lemma AttachHung(pathOf: map<Field, seq<string>>, kids: map<Field, map<string, Field>>, cur: Field, k: string, leaf: Field)
    requires kids.Keys == pathOf.Keys && HungIn(pathOf, kids)
    requires cur in pathOf && leaf !in pathOf
    ensures HungIn(pathOf[leaf := pathOf[cur] + [k]], kids[cur := kids[cur][k := leaf]][leaf := map[]])
  {
    var pathOf' := pathOf[leaf := pathOf[cur] + [k]];
    var kids': map<Field, map<string, Field>> := kids[cur := kids[cur][k := leaf]][leaf := map[]];
    forall n | n in pathOf' && pathOf'[n] != []
      ensures exists p :: p in pathOf' && p in kids' && pathOf'[p] + [Last(pathOf'[n])] == pathOf'[n] && Last(pathOf'[n]) in kids'[p]
    {
      if n == leaf {
        assert pathOf'[cur] + [Last(pathOf'[n])] == pathOf'[n] && Last(pathOf'[n]) in kids'[cur];
      } else {
        assert pathOf'[n] == pathOf[n];
        var p: Field :| p in pathOf && p in kids && pathOf[p] + [Last(pathOf[n])] == pathOf[n] && Last(pathOf[n]) in kids[p];
        assert p in pathOf' && p in kids' && pathOf'[p] == pathOf[p] && Last(pathOf[n]) in kids'[p];
      }
    }
  }

  /** ... and no two nodes share a path. */
  lemma AttachInjective(pathOf: map<Field, seq<string>>, cur: Field, k: string, leaf: Field)
    requires Injective(pathOf) && cur in pathOf && leaf !in pathOf
    requires pathOf[cur] + [k] !in pathOf.Values
    ensures Injective(pathOf[leaf := pathOf[cur] + [k]])
  {
  }

  /**
   * The tree after a fresh leaf named `k` was hung below `cur`, which had no
   * such child; `kids` are the children maps from before.
   */
  lemma AttachTree(root: Field, pathOf: map<Field, seq<string>>, kids: map<Field, map<string, Field>>,
                   cur: Field, k: string, leaf: Field)
    requires root in pathOf && pathOf[root] == [] && Injective(pathOf)
    requires kids.Keys == pathOf.Keys && LinkedIn(pathOf, kids) && HungIn(pathOf, kids)
    requires cur in pathOf && leaf !in pathOf && leaf.name == k && k !in kids[cur]
    requires pathOf[cur] + [k] !in pathOf.Values
    requires forall n :: n in pathOf && n != cur ==> n.subFields == kids[n]
    requires cur.subFields == kids[cur][k := leaf] && leaf.subFields == map[]
    ensures IsTree(root, pathOf[leaf := pathOf[cur] + [k]])
    ensures pathOf[leaf := pathOf[cur] + [k]].Values == pathOf.Values + {pathOf[cur] + [k]}
  {
    var pathOf' := pathOf[leaf := pathOf[cur] + [k]];
    ValuesOfUpdate(pathOf, leaf, pathOf[cur] + [k]);
    AttachLinked(pathOf, kids, cur, k, leaf);
    AttachHung(pathOf, kids, cur, k, leaf);
    AttachInjective(pathOf, cur, k, leaf);
    SnapAfterAttach(pathOf, kids, cur, k, leaf);
    SnapLinked(pathOf');
    SnapHungTo(pathOf');
  }

  /** After the leaf is hung, the children maps are the old ones with the leaf added below `cur`. */
  lemma SnapAfterAttach(pathOf: map<Field, seq<string>>, kids: map<Field, map<string, Field>>,
                        cur: Field, k: string, leaf: Field)
    requires kids.Keys == pathOf.Keys && cur in pathOf && leaf !in pathOf
    requires forall n :: n in pathOf && n != cur ==> n.subFields == kids[n]
    requires cur.subFields == kids[cur][k := leaf] && leaf.subFields == map[]
    ensures Snap(pathOf[leaf := pathOf[cur] + [k]]) == kids[cur := kids[cur][k := leaf]][leaf := map[]]
  {
  }

  /** A node at a path extended by `k` is the child named `k` of the node at that path. */
  lemma ChildOfPath(root: Field, pathOf: map<Field, seq<string>>, cur: Field, k: string)
    requires IsTree(root, pathOf) && cur in pathOf
    ensures pathOf[cur] + [k] in pathOf.Values ==> k in cur.subFields
  {
    if pathOf[cur] + [k] in pathOf.Values {
      var m :| m in pathOf && pathOf[m] == pathOf[cur] + [k];
      assert Last(pathOf[m]) == k;
      var p :| p in pathOf && pathOf[p] + [k] == pathOf[m] && k in p.subFields;
      assert pathOf[p] == pathOf[m][..|pathOf[m]| - 1] == pathOf[cur];
    }
  }

  /** Adding a new key adds its value to the values. */
  lemma ValuesOfUpdate<K, V>(m: map<K, V>, x: K, y: V)
    requires x !in m
    ensures m[x := y].Values == m.Values + {y}
  {
    var m' := m[x := y];
    forall v | v in m.Values
      ensures v in m'.Values
    {
      var z :| z in m && m[z] == v;
      assert z in m' && m'[z] == v;
    }
    assert m'[x] == y;
    forall v | v in m'.Values
      ensures v in m.Values + {y}
    {
      var z :| z in m' && m'[z] == v;
      if z != x {
        assert z in m && m[z] == v;
      }
    }
  }

  // ---------------------------------------------------------------------------
  // Following a path down the tree.
  // ---------------------------------------------------------------------------

  /** The node reached from `n` by following `segs` child by child, if every step exists. */
  ghost function Reach(n: Field, segs: seq<string>, pathOf: map<Field, seq<string>>): Option<Field>
    requires n in pathOf && Linked(pathOf)
    reads pathOf.Keys
    decreases |segs|
  {
    if segs == [] then Some(n)
    else if segs[0] in n.subFields then Reach(n.subFields[segs[0]], segs[1..], pathOf)
    else None
  }

  /** Whatever a walk reaches sits at the walked path, and is named after its last segment. */
  lemma {:induction false} ReachSound(n: Field, segs: seq<string>, pathOf: map<Field, seq<string>>)
    requires n in pathOf && Linked(pathOf)
    ensures Reach(n, segs, pathOf).Some? ==>
              Reach(n, segs, pathOf).value in pathOf && pathOf[Reach(n, segs, pathOf).value] == pathOf[n] + segs
    ensures Reach(n, segs, pathOf).Some? && segs != [] ==> Reach(n, segs, pathOf).value.name == Last(segs)
    decreases |segs|
  {
    if segs != [] && segs[0] in n.subFields {
      var c := n.subFields[segs[0]];
      ReachSound(c, segs[1..], pathOf);
      assert pathOf[n] + [segs[0]] + segs[1..] == pathOf[n] + segs;
      if segs[1..] == [] {
        assert segs == [segs[0]];
      } else {
        assert Last(segs[1..]) == Last(segs);
      }
    }
  }

  /** A walk one segment longer is one more child step. */
  lemma {:induction false} ReachSnoc(n: Field, segs: seq<string>, k: string, pathOf: map<Field, seq<string>>)
    requires n in pathOf && Linked(pathOf)
    ensures Reach(n, segs + [k], pathOf) ==
              if Reach(n, segs, pathOf).Some? && k in Reach(n, segs, pathOf).value.subFields
              then Some(Reach(n, segs, pathOf).value.subFields[k]) else None
    decreases |segs|
  {
    if segs == [] {
      assert [] + [k] == [k] && [k][1..] == [];
    } else {
      assert (segs + [k])[0] == segs[0] && (segs + [k])[1..] == segs[1..] + [k];
      if segs[0] in n.subFields {
        ReachSnoc(n.subFields[segs[0]], segs[1..], k, pathOf);
      }
    }
  }

  /** Every node is reached from the root by its own path. */
  lemma {:induction false} ReachComplete(root: Field, pathOf: map<Field, seq<string>>, m: Field)
    requires IsTree(root, pathOf) && m in pathOf
    ensures Reach(root, pathOf[m], pathOf) == Some(m)
    decreases |pathOf[m]|
  {
    if pathOf[m] != [] {
      var k := Last(pathOf[m]);
      var p :| p in pathOf && pathOf[p] + [k] == pathOf[m] && k in p.subFields;
      ReachComplete(root, pathOf, p);
      ReachSnoc(root, pathOf[p], k, pathOf);
    }
  }

  /** In a tree, a walk from the root succeeds exactly on the node paths. */
  lemma ReachExactly(root: Field, pathOf: map<Field, seq<string>>, segs: seq<string>)
    requires IsTree(root, pathOf)
    ensures Reach(root, segs, pathOf).Some? <==> segs in pathOf.Values
  {
    ReachSound(root, segs, pathOf);
    assert [] + segs == segs;
    if segs in pathOf.Values {
      var m :| m in pathOf && pathOf[m] == segs;
      ReachComplete(root, pathOf, m);
    }
  }

  /**
   * After parsing, a walk from the root succeeds exactly on the prefixes of
   * the split paths: every path has its chain, and there is no other node.
   */
  lemma ParsedTreeHoldsExactlyThePaths(root: Field, pathOf: map<Field, seq<string>>, paths: seq<string>, segs: seq<string>)
    requires IsTree(root, pathOf) && pathOf.Values == PathsOf(paths)
    ensures Reach(root, segs, pathOf).Some? <==> segs == [] || exists j :: 0 <= j < |paths| && segs in Prefixes(Split(paths[j]))
  {
    ReachExactly(root, pathOf, segs);
    PathsOfMembers(paths, segs);
  }

  /** The root's children are named by the first segments of the paths. */
  lemma RootChildren(root: Field, pathOf: map<Field, seq<string>>, paths: seq<string>, k: string)
    requires IsTree(root, pathOf) && pathOf.Values == PathsOf(paths)
    ensures k in root.subFields <==> exists j :: 0 <= j < |paths| && Split(paths[j]) != [] && Split(paths[j])[0] == k
  {
    RootChildPath(root, pathOf, k);
    OneSegmentPaths(paths, k);
  }

  /** The root has a child `k` iff the one-segment path `[k]` is a path of the tree. */
  lemma RootChildPath(root: Field, pathOf: map<Field, seq<string>>, k: string)
    requires IsTree(root, pathOf)
    ensures k in root.subFields <==> [k] in pathOf.Values
  {
    assert [] + [k] == [k];
    ChildOfPath(root, pathOf, root, k);
    if k in root.subFields {
      assert pathOf[root.subFields[k]] == [k];
    }
  }

  /** `[k]` is a prefix of a segment path iff the path starts with `k`. */
  lemma OneSegmentPrefix(segs: seq<string>, k: string)
    ensures [k] in Prefixes(segs) <==> segs != [] && segs[0] == k
  {
    if segs != [] && segs[0] == k {
      assert segs[..1] == [k];
    }
    if [k] in Prefixes(segs) {
      var i :| 0 <= i <= |segs| && segs[..i] == [k];
      assert |segs[..i]| == 1;
    }
  }

  /** `[k]` stands for a list of paths iff one of them starts with the segment `k`. */
  lemma OneSegmentPaths(paths: seq<string>, k: string)
    ensures [k] in PathsOf(paths) <==> exists j :: 0 <= j < |paths| && Split(paths[j]) != [] && Split(paths[j])[0] == k
  {
    PathsOfMembers(paths, [k]);
    forall j | 0 <= j < |paths|
      ensures [k] in Prefixes(Split(paths[j])) <==> Split(paths[j]) != [] && Split(paths[j])[0] == k
    {
      OneSegmentPrefix(Split(paths[j]), k);
    }
  }



  /** The children of a parsed root are the paths' first segments. */
  lemma RootChildrenAll(root: Field, pathOf: map<Field, seq<string>>, paths: seq<string>)
    requires IsTree(root, pathOf) && pathOf.Values == PathsOf(paths)
    ensures forall k :: k in root.subFields <==> exists j :: 0 <= j < |paths| && Split(paths[j]) != [] && Split(paths[j])[0] == k
  {
    forall k
      ensures k in root.subFields <==> exists j :: 0 <= j < |paths| && Split(paths[j]) != [] && Split(paths[j])[0] == k
    {
      RootChildren(root, pathOf, paths, k);
    }
  }

  /** The paths select first segments, as a set of names and as a sequence without repeats. */
  ghost predicate SelectsFirstSegments(sel: Selector, paths: seq<string>)
  {
    && (sel.subFields == [] <==> forall j :: 0 <= j < |paths| ==> Split(paths[j]) == [])
    && (forall n :: n in SelectorNames(sel.subFields) <==>
          exists j :: 0 <= j < |paths| && Split(paths[j]) != [] && Split(paths[j])[0] == n)
  }

  lemma FirstSegmentNames(keys: set<string>, sel: Selector, paths: seq<string>)
    requires forall k :: k in keys <==> k in SelectorNames(sel.subFields)
    requires forall k :: k in keys <==> exists j :: 0 <= j < |paths| && Split(paths[j]) != [] && Split(paths[j])[0] == k
    ensures SelectsFirstSegments(sel, paths)
  {
    assert sel.subFields != [] ==> SelectorNames(sel.subFields)[0] in keys;
    forall j | 0 <= j < |paths|
      ensures Split(paths[j]) != [] ==> Split(paths[j])[0] in SelectorNames(sel.subFields)
    {
      assert Split(paths[j]) != [] ==> Split(paths[j])[0] in keys;
    }
  }

  /**
   * The selector of a parsed tree is named after the root, is a wildcard exactly
   * when no path has a segment, and otherwise selects exactly the paths' first segments.
   */
  lemma ParsedSelector(root: Field, pathOf: map<Field, seq<string>>, paths: seq<string>, sel: Selector)
    requires IsTree(root, pathOf) && pathOf.Values == PathsOf(paths) && Describes(sel, root, pathOf)
    ensures sel.name == root.name
    ensures SelectsFirstSegments(sel, paths)
  {
    RootChildrenAll(root, pathOf, paths);
    FirstSegmentNames(root.subFields.Keys, sel, paths);
  }

  /** The segments `segs` start with `n` and go at least one segment further. */
  predicate Below(segs: seq<string>, n: string)
  {
    |segs| >= 2 && segs[0] == n
  }

  /**
   * The sub-selector `sub` selects the segments that follow its own name at the
   * start of a path: it is a wildcard iff no path goes below that name.
   */
  ghost predicate SelectsSecondSegments(sub: Selector, paths: seq<string>)
  {
    && (sub.subFields == [] <==> forall q :: 0 <= q < |paths| ==> !Below(Split(paths[q]), sub.name))
    && (forall x :: x in SelectorNames(sub.subFields) <==>
          exists q :: 0 <= q < |paths| && Below(Split(paths[q]), sub.name) && Split(paths[q])[1] == x)
  }

  /** `[n, x]` is a prefix of a segment path iff the path starts with `n` and then `x`. */
  lemma TwoSegmentPrefix(segs: seq<string>, n: string, x: string)
    ensures [n, x] in Prefixes(segs) <==> Below(segs, n) && segs[1] == x
  {
    if Below(segs, n) && segs[1] == x {
      assert segs[..2] == [n, x];
    }
    if [n, x] in Prefixes(segs) {
      var i :| 0 <= i <= |segs| && segs[..i] == [n, x];
      assert |segs[..i]| == 2;
    }
  }

  /** `[n, x]` stands for a list of paths iff one of them starts with `n` and then `x`. */
  lemma TwoSegmentPaths(paths: seq<string>, n: string, x: string)
    ensures [n, x] in PathsOf(paths) <==> exists q :: 0 <= q < |paths| && Below(Split(paths[q]), n) && Split(paths[q])[1] == x
  {
    PathsOfMembers(paths, [n, x]);
    forall q | 0 <= q < |paths|
      ensures [n, x] in Prefixes(Split(paths[q])) <==> Below(Split(paths[q]), n) && Split(paths[q])[1] == x
    {
      TwoSegmentPrefix(Split(paths[q]), n, x);
    }
  }

  /** The root's child `n` has a child `x` iff `[n, x]` is a path of the tree. */
  lemma GrandchildPath(root: Field, pathOf: map<Field, seq<string>>, n: string, x: string)
    requires IsTree(root, pathOf) && n in root.subFields
    ensures x in root.subFields[n].subFields <==> [n, x] in pathOf.Values
  {
    var c := root.subFields[n];
    assert pathOf[c] == [] + [n] == [n];
    assert [n] + [x] == [n, x];
    ChildOfPath(root, pathOf, c, x);
    if x in c.subFields {
      assert pathOf[c.subFields[x]] == [n, x];
    }
  }

  /** Each sub-selector of a parsed root selects the paths' second segments below its name. */
  lemma ParsedSecondSegments(root: Field, pathOf: map<Field, seq<string>>, paths: seq<string>, sel: Selector, j: int)
    requires IsTree(root, pathOf) && pathOf.Values == PathsOf(paths) && Describes(sel, root, pathOf)
    requires 0 <= j < |sel.subFields|
    ensures SelectsSecondSegments(sel.subFields[j], paths)
  {
    var sub := sel.subFields[j];
    var n := sub.name;
    var c := root.subFields[n];
    assert Describes(sub, c, pathOf);
    forall x
      ensures x in SelectorNames(sub.subFields) <==>
                exists q :: 0 <= q < |paths| && Below(Split(paths[q]), n) && Split(paths[q])[1] == x
    {
      GrandchildPath(root, pathOf, n, x);
      TwoSegmentPaths(paths, n, x);
    }
    assert sub.subFields != [] ==> SelectorNames(sub.subFields)[0] in SelectorNames(sub.subFields);
    forall q | 0 <= q < |paths|
      ensures Below(Split(paths[q]), n) ==> Split(paths[q])[1] in SelectorNames(sub.subFields)
    {
    }
  }

  /**
   * `s` is the value of the subtree at `n`: the same name, one sub-selector per
   * child with the child's name and no name twice, each the value of that child.
   */
  ghost predicate Describes(s: Selector, n: Field, pathOf: map<Field, seq<string>>)
    reads pathOf.Keys
    decreases s
  {
    && n in pathOf
    && s.name == n.name
    && (forall k :: k in n.subFields <==> k in SelectorNames(s.subFields))
    && (forall i, j :: 0 <= i < j < |s.subFields| ==> s.subFields[i].name != s.subFields[j].name)
    && (forall j :: 0 <= j < |s.subFields| ==>
          s.subFields[j].name in n.subFields && Describes(s.subFields[j], n.subFields[s.subFields[j].name], pathOf))
  }
}
