/**
 Recognising key sequences (include/termbox2.h:2968-3042, 3593-3614): a trie of nodes grown in place, proved to
 agree with the plain list of the sequences added to it.
 */
module CapTrie {
  import opened Bytes

  datatype Key = Key(key: nat, mod: nat)

  /** A key sequence as it was added. */
  datatype Cap = Cap(s: seq<Byte>, key: Key)

  // ----- the plain list -----

  /** The key of the first entry for p. */
  function FirstKey(caps: seq<Cap>, p: seq<Byte>): (k: Option<Key>) {
    if caps == [] then None
    else
      var earlier := FirstKey(caps[..|caps| - 1], p);
      if earlier.Some? then earlier
      else if caps[|caps| - 1].s == p then Some(caps[|caps| - 1].key) else None
  }

  /** Some entry begins with p. */
  predicate Begins(caps: seq<Cap>, p: seq<Byte>) {
    exists i :: 0 <= i < |caps| && p <= caps[i].s
  }

  /** Some entry begins with p and goes on. */
  predicate GoesOn(caps: seq<Cap>, p: seq<Byte>) {
    exists i :: 0 <= i < |caps| && p < caps[i].s
  }

  /** The length of the longest beginning of input, up to n bytes, that some entry begins with. */
  function Longest(caps: seq<Cap>, input: seq<Byte>, n: nat): (d: nat)
    requires n <= |input|
    ensures d <= n
  {
    if n == 0 || Begins(caps, input[..n]) then n else Longest(caps, input, n - 1)
  }

  datatype Lookup = Found(key: Key, rest: seq<Byte>) | NeedMore | NotACap

  /** extract_esc_cap, on the list. */
  function Recognise(caps: seq<Cap>, input: seq<Byte>): (r: Lookup) {
    var d := Longest(caps, input, |input|);
    match FirstKey(caps, input[..d])
    case Some(k) => Found(k, input[d..])
    case None => if GoesOn(caps, input[..d]) && |input| <= d then NeedMore else NotACap
  }

  lemma {:induction false} FirstKeyMeans(caps: seq<Cap>, p: seq<Byte>)
    ensures FirstKey(caps, p).Some? <==> exists i :: 0 <= i < |caps| && caps[i].s == p
    ensures forall k :: FirstKey(caps, p) == Some(k) ==>
              exists i :: 0 <= i < |caps| && caps[i] == Cap(p, k) && forall j :: 0 <= j < i ==> caps[j].s != p
  {
    if caps != [] {
      var n := |caps| - 1;
      FirstKeyMeans(caps[..n], p);
      if FirstKey(caps[..n], p).Some? {
        var i :| 0 <= i < n && caps[..n][i] == Cap(p, FirstKey(caps, p).value) && forall j :: 0 <= j < i ==> caps[..n][j].s != p;
        assert caps[i] == Cap(p, FirstKey(caps, p).value);
        assert forall j :: 0 <= j < i ==> caps[j].s == caps[..n][j].s;
      } else {
        assert forall j :: 0 <= j < n ==> caps[j].s == caps[..n][j].s;
      }
    }
  }

  lemma {:induction false} LongestMeans(caps: seq<Cap>, input: seq<Byte>, n: nat)
    requires n <= |input|
    ensures var d := Longest(caps, input, n);
            && (d == 0 || Begins(caps, input[..d]))
            && (forall m :: d < m <= n ==> !Begins(caps, input[..m]))
  {
    if n > 0 && !Begins(caps, input[..n]) { LongestMeans(caps, input, n - 1); }
  }

  /** More input is asked for exactly when the whole input is a proper beginning of an entry and no entry. */
  lemma NeedMoreExactly(caps: seq<Cap>, input: seq<Byte>)
    ensures Recognise(caps, input) == NeedMore <==> GoesOn(caps, input) && FirstKey(caps, input) == None
  {
    LongestMeans(caps, input, |input|);
    assert input[..|input|] == input;
    if GoesOn(caps, input) {
      var i :| 0 <= i < |caps| && input < caps[i].s;
      assert Begins(caps, input);
    }
  }

  /** A key is reported exactly when the longest beginning of the input shared with an entry is itself an entry:
      a shorter entry does not help once a longer one has been started. */
  lemma FoundExactly(caps: seq<Cap>, input: seq<Byte>, d: nat)
    requires d <= |input| && (d == 0 || Begins(caps, input[..d]))
    requires forall m :: d < m <= |input| ==> !Begins(caps, input[..m])
    ensures Recognise(caps, input).Found? <==> FirstKey(caps, input[..d]).Some?
    ensures FirstKey(caps, input[..d]).Some? ==> Recognise(caps, input) == Found(FirstKey(caps, input[..d]).value, input[d..])
  {
    LongestMeans(caps, input, |input|);
    var e := Longest(caps, input, |input|);
    assert e == d;
  }

  /** Recognition is not "the longest entry the input begins with". */
  lemma ShorterEntryIsLost()
    ensures var caps := [Cap([27, 91], Key(1, 0)), Cap([27, 91, 65, 66], Key(2, 0))];
            Recognise(caps, [27, 91, 65, 67]) == NotACap && Recognise(caps, [27, 91, 67]) == Found(Key(1, 0), [67])
  {
    var caps := [Cap([27, 91], Key(1, 0)), Cap([27, 91, 65, 66], Key(2, 0))];
    var a: seq<Byte>, b: seq<Byte> := [27, 91, 65, 67], [27, 91, 67];
    assert a[..3] <= caps[1].s && b[..2] <= caps[0].s;
    assert a[..4] == a && b[..3] == b;
    assert a[3] != caps[1].s[3] && b[2] != caps[1].s[2];
    FirstKeyMeans(caps, a[..3]);
    FoundExactly(caps, a, 3);
    NeedMoreExactly(caps, a);
    assert caps[..1][..0] == [] && caps[..1][0] == caps[0] && b[2..] == [67];
    FoundExactly(caps, b, 2);
  }

  // ----- the nodes -----

  datatype Edge = Edge(c: Byte, node: nat)

  /** Node 0 is the root. */
  datatype Node = Node(children: seq<Edge>, leaf: Option<Key>)

  /** The first child for c. */
  function Child(es: seq<Edge>, c: Byte): (n: Option<nat>) {
    if es == [] then None else if es[0].c == c then Some(es[0].node) else Child(es[1..], c)
  }

  lemma {:induction false} ChildAppend(es: seq<Edge>, e: Edge, c: Byte)
    ensures Child(es + [e], c) == if Child(es, c).Some? then Child(es, c) else if c == e.c then Some(e.node) else None
  {
    if es == [] {
      assert es + [e] == [e] && [e][1..] == [];
    } else {
      assert (es + [e])[1..] == es[1..] + [e];
      ChildAppend(es[1..], e, c);
    }
  }

  type Paths = map<seq<Byte>, nat>

  ghost function ByPath(at: Paths, p: seq<Byte>, c: Byte): (n: Option<nat>) {
    if p + [c] in at then Some(at[p + [c]]) else None
  }

  function Parent(p: seq<Byte>): (q: seq<Byte>)
    requires p != []
  {
    p[..|p| - 1]
  }

  /** The nodes form a trie whose node for path p is number at[p]. */
  ghost predicate Shape(nodes: seq<Node>, at: Paths) {
    && [] in at && at[[]] == 0
    && (forall p :: p in at ==> at[p] < |nodes|)
    && (forall p, q :: p in at && q in at && at[p] == at[q] ==> p == q)
    && (forall p {:trigger Parent(p)} :: p in at && p != [] ==> Parent(p) in at)
    && (forall p, c :: p in at ==> Child(nodes[at[p]].children, c) == ByPath(at, p, c))
  }

  ghost predicate Leaves(nodes: seq<Node>, at: Paths, caps: seq<Cap>) {
    && (forall p :: p in at ==> at[p] < |nodes| && nodes[at[p]].leaf == FirstKey(caps, p))
    && (forall i :: 0 <= i < |caps| ==> caps[i].s != [] && caps[i].s in at)
  }

  /** Every path but the root's is a beginning of an entry, or of the sequence being added. */
  ghost predicate NoStrays(at: Paths, caps: seq<Cap>, adding: seq<Byte>) {
    forall p :: p in at ==> p == [] || p <= adding || Begins(caps, p)
  }

  lemma ChildAt(nodes: seq<Node>, at: Paths, p: seq<Byte>, c: Byte)
    requires Shape(nodes, at) && p in at
    ensures at[p] < |nodes| && Child(nodes[at[p]].children, c) == ByPath(at, p, c)
  {
  }

  lemma RootAt(nodes: seq<Node>, at: Paths)
    requires Shape(nodes, at)
    ensures [] in at && at[[]] == 0
  {
  }

  /** Hang a new node for p + [c] below the node for p. */
  function WithChild(nodes: seq<Node>, n: nat, c: Byte): (nodes': seq<Node>)
    requires n < |nodes|
  {
    nodes[n := nodes[n].(children := nodes[n].children + [Edge(c, |nodes|)])] + [Node([], None)]
  }

  lemma WithChildShape(nodes: seq<Node>, at: Paths, p: seq<Byte>, c: Byte)
    requires Shape(nodes, at) && p in at && p + [c] !in at
    ensures Shape(WithChild(nodes, at[p], c), at[p + [c] := |nodes|])
  {
    var new' := p + [c];
    var nodes', at' := WithChild(nodes, at[p], c), at[new' := |nodes|];
    assert Parent(new') == p;
    forall q, d | q in at'
      ensures Child(nodes'[at'[q]].children, d) == ByPath(at', q, d)
    {
      ChildAppend(nodes[at[p]].children, Edge(c, |nodes|), d);
      assert Parent(q + [d]) == q && (q + [d])[|q|] == d;
      if q == new' {
        assert new' + [d] !in at;
      } else {
        assert Child(nodes[at[q]].children, d) == ByPath(at, q, d);
      }
    }
  }

  lemma WithChildLeaves(nodes: seq<Node>, at: Paths, caps: seq<Cap>, p: seq<Byte>, c: Byte, adding: seq<Byte>)
    requires Shape(nodes, at) && Leaves(nodes, at, caps) && NoStrays(at, caps, adding)
    requires p in at && p + [c] !in at && p + [c] <= adding
    ensures Leaves(WithChild(nodes, at[p], c), at[p + [c] := |nodes|], caps)
    ensures NoStrays(at[p + [c] := |nodes|], caps, adding)
  {
    FirstKeyMeans(caps, p + [c]);
  }

  /** Mark the node for s, unless it is marked already. */
  lemma MarkLeaf(nodes: seq<Node>, at: Paths, caps: seq<Cap>, s: seq<Byte>, key: Key)
    requires Shape(nodes, at) && Leaves(nodes, at, caps) && NoStrays(at, caps, s) && s in at && s != []
    ensures var n, caps' := at[s], caps + [Cap(s, key)];
            var nodes' := if nodes[n].leaf.Some? then nodes else nodes[n := nodes[n].(leaf := Some(key))];
            Shape(nodes', at) && Leaves(nodes', at, caps') && NoStrays(at, caps', [])
  {
    var n, caps' := at[s], caps + [Cap(s, key)];
    var nodes' := if nodes[n].leaf.Some? then nodes else nodes[n := nodes[n].(leaf := Some(key))];
    assert caps'[..|caps|] == caps;
    assert forall p :: p in at ==> nodes'[at[p]].children == nodes[at[p]].children;
    forall p, c | p in at
      ensures Child(nodes'[at[p]].children, c) == ByPath(at, p, c)
    {
      assert Child(nodes[at[p]].children, c) == ByPath(at, p, c);
    }
    forall p | p in at && p != []
      ensures Begins(caps', p)
    {
      if p <= s { assert p <= caps'[|caps|].s; } else { StillBegins(caps, p, Cap(s, key)); }
    }
  }

  lemma CollisionIff(nodes: seq<Node>, at: Paths, caps: seq<Cap>, s: seq<Byte>)
    requires Leaves(nodes, at, caps)
    ensures s == [] ==> FirstKey(caps, s) == None
    ensures s in at ==> at[s] < |nodes| && (nodes[at[s]].leaf.Some? <==> FirstKey(caps, s).Some?)
  {
    FirstKeyMeans(caps, s);
  }

  lemma MayAdd(at: Paths, caps: seq<Cap>, s: seq<Byte>)
    requires NoStrays(at, caps, [])
    ensures NoStrays(at, caps, s)
  {
  }

  lemma StillBegins(caps: seq<Cap>, p: seq<Byte>, cap: Cap)
    requires Begins(caps, p)
    ensures Begins(caps + [cap], p)
  {
    var i :| 0 <= i < |caps| && p <= caps[i].s;
    assert p <= (caps + [cap])[i].s;
  }

  // ----- what a walk down the nodes tells about the list -----

  lemma {:induction false} ClosedUnderPrefix(nodes: seq<Node>, at: Paths, s: seq<Byte>, n: nat)
    requires Shape(nodes, at) && s in at && n <= |s|
    ensures s[..n] in at
    decreases |s| - n
  {
    if n == |s| {
      assert s[..n] == s;
    } else {
      ClosedUnderPrefix(nodes, at, s, n + 1);
      assert Parent(s[..n + 1]) == s[..n];
    }
  }

  lemma NotAStray(at: Paths, caps: seq<Cap>, p: seq<Byte>)
    requires NoStrays(at, caps, []) && p != []
    ensures p in at ==> Begins(caps, p)
  {
  }

  /** A non-empty path has a node exactly when some entry begins with it. */
  lemma PathsAreBeginnings(nodes: seq<Node>, at: Paths, caps: seq<Cap>, p: seq<Byte>)
    requires Shape(nodes, at) && Leaves(nodes, at, caps) && NoStrays(at, caps, []) && p != []
    ensures p in at <==> Begins(caps, p)
  {
    hide Shape;
    hide NoStrays;
    NotAStray(at, caps, p);
    if Begins(caps, p) {
      var i :| 0 <= i < |caps| && p <= caps[i].s;
      ClosedUnderPrefix(nodes, at, caps[i].s, |p|);
      assert caps[i].s[..|p|] == p;
    }
  }

  /** A node has children exactly when some entry goes on from it. */
  lemma ChildrenGoOn(nodes: seq<Node>, at: Paths, caps: seq<Cap>, p: seq<Byte>)
    requires Shape(nodes, at) && Leaves(nodes, at, caps) && NoStrays(at, caps, []) && p in at
    ensures at[p] < |nodes| && (nodes[at[p]].children != [] <==> GoesOn(caps, p))
  {
    hide Shape;
    hide NoStrays;
    var es := nodes[at[p]].children;
    if es != [] {
      var c := es[0].c;
      ChildAt(nodes, at, p, c);
      PathsAreBeginnings(nodes, at, caps, p + [c]);
      var i :| 0 <= i < |caps| && p + [c] <= caps[i].s;
      assert p < caps[i].s;
    }
    if GoesOn(caps, p) {
      var i :| 0 <= i < |caps| && p < caps[i].s;
      var c := caps[i].s[|p|];
      assert p + [c] <= caps[i].s;
      PathsAreBeginnings(nodes, at, caps, p + [c]);
      ChildAt(nodes, at, p, c);
    }
  }

  lemma BeginsShorter(caps: seq<Cap>, p: seq<Byte>, q: seq<Byte>)
    requires q <= p
    ensures Begins(caps, p) ==> Begins(caps, q)
  {
    if Begins(caps, p) {
      var i :| 0 <= i < |caps| && p <= caps[i].s;
      assert q <= caps[i].s;
    }
  }

  lemma {:induction false} LongestIs(caps: seq<Cap>, input: seq<Byte>, n: nat, d: nat)
    requires d <= n <= |input| && (d == 0 || Begins(caps, input[..d]))
    requires d < n ==> !Begins(caps, input[..d + 1])
    ensures Longest(caps, input, n) == d
    decreases n
  {
    if d < n {
      BeginsShorter(caps, input[..n], input[..d + 1]);
      LongestIs(caps, input, n - 1, d);
    }
  }

  /** What the node reached tells when the walk cannot go on. */
  lemma WalkEnds(nodes: seq<Node>, at: Paths, caps: seq<Cap>, input: seq<Byte>, d: nat)
    requires Shape(nodes, at) && Leaves(nodes, at, caps) && NoStrays(at, caps, [])
    requires d <= |input| && input[..d] in at && (d < |input| ==> ByPath(at, input[..d], input[d]) == None)
    ensures Longest(caps, input, |input|) == d && at[input[..d]] < |nodes|
    ensures nodes[at[input[..d]]].leaf == FirstKey(caps, input[..d])
    ensures nodes[at[input[..d]]].children != [] <==> GoesOn(caps, input[..d])
  {
    hide Shape;
    hide NoStrays;
    if d > 0 { PathsAreBeginnings(nodes, at, caps, input[..d]); }
    if d < |input| {
      assert input[..d] + [input[d]] == input[..d + 1];
      PathsAreBeginnings(nodes, at, caps, input[..d + 1]);
    }
    LongestIs(caps, input, |input|, d);
    ChildrenGoOn(nodes, at, caps, input[..d]);
  }

  class Trie {
    var nodes: seq<Node>
    ghost var at: Paths
    ghost var added: seq<Cap>

    ghost predicate Valid()
      reads this
    {
      Shape(nodes, at) && Leaves(nodes, at, added) && NoStrays(at, added, [])
    }

    constructor ()
      ensures Valid() && added == []
    {
      nodes, at, added := [Node([], None)], map[[] := 0], [];
      new;
      assert forall p: seq<Byte>, c: Byte :: p == [] ==> ByPath(at, p, c) == None;
    }

    /** The inner loop: look c up among the children of node n. */
    method FindChild(n: nat, c: Byte) returns (m: Option<nat>)
      requires n < |nodes|
      ensures m == Child(nodes[n].children, c)
    {
      var es := nodes[n].children;
      var j := 0;
      assert es[0..] == es;
      while j < |es|
        invariant 0 <= j <= |es| && Child(es, c) == Child(es[j..], c)
      {
        assert es[j..][0] == es[j] && es[j..][1..] == es[j + 1..];
        if es[j].c == c { return Some(es[j].node); }
        j := j + 1;
      }
      return None;
    }

    /** One step of cap_trie_add: the child for c, made if need be. */
    method StepDown(n: nat, c: Byte, ghost p: seq<Byte>, ghost cap: seq<Byte>) returns (m: nat)
      requires Shape(nodes, at) && Leaves(nodes, at, added) && NoStrays(at, added, cap)
      requires p in at && n == at[p] && p + [c] <= cap
      modifies this`nodes, this`at
      ensures Shape(nodes, at) && Leaves(nodes, at, added) && NoStrays(at, added, cap)
      ensures p + [c] in at && m == at[p + [c]]
    {
      var next := FindChild(n, c);
      assert Child(nodes[n].children, c) == ByPath(at, p, c);
      if next.Some? { return next.value; }
      WithChildShape(nodes, at, p, c);
      WithChildLeaves(nodes, at, added, p, c, cap);
      m := |nodes|;
      at := at[p + [c] := m];
      nodes := WithChild(nodes, n, c);
    }

    /** cap_trie_add: empty sequences are ignored, and of two equal ones the first wins. */
    method Add(cap: seq<Byte>, key: Key) returns (collision: bool)
      requires Valid()
      modifies this
      ensures Valid() && added == old(added) + if cap == [] then [] else [Cap(cap, key)]
      ensures collision <==> FirstKey(old(added), cap).Some?
    {
      hide Shape;
      hide FirstKey;
      hide NoStrays;
      CollisionIff(nodes, at, added, cap);
      if cap == [] { return false; }
      var n, i := 0, 0;
      RootAt(nodes, at);
      assert cap[..0] == [];
      MayAdd(at, added, cap);
      while i < |cap|
        invariant 0 <= i <= |cap| && added == old(added)
        invariant Shape(nodes, at) && Leaves(nodes, at, added) && NoStrays(at, added, cap)
        invariant cap[..i] in at && n == at[cap[..i]]
      {
        assert cap[..i] + [cap[i]] == cap[..i + 1];
        n := StepDown(n, cap[i], cap[..i], cap);
        i := i + 1;
      }
      assert cap[..i] == cap;
      RootAt(nodes, at);
      MarkLeaf(nodes, at, added, cap, key);
      CollisionIff(nodes, at, added, cap);
      collision := nodes[n].leaf.Some?;
      added := added + [Cap(cap, key)];
      if !collision { nodes := nodes[n := nodes[n].(leaf := Some(key))]; }
    }

    /** cap_trie_find */
    method Find(input: seq<Byte>) returns (n: nat, depth: nat)
      requires Valid()
      ensures depth == Longest(added, input, |input|)
      ensures n < |nodes| && nodes[n].leaf == FirstKey(added, input[..depth])
      ensures nodes[n].children != [] <==> GoesOn(added, input[..depth])
    {
      hide Shape;
      hide Leaves;
      hide NoStrays;
      n, depth := 0, 0;
      var stop := false;
      RootAt(nodes, at);
      assert input[..0] == [];
      while depth < |input| && !stop
        invariant depth <= |input| && input[..depth] in at && n == at[input[..depth]]
        invariant stop && depth < |input| ==> ByPath(at, input[..depth], input[depth]) == None
        decreases |input| - depth, !stop
      {
        var c := input[depth];
        ChildAt(nodes, at, input[..depth], c);
        var next := FindChild(n, c);
        assert input[..depth] + [c] == input[..depth + 1];
        if next.None? {
          stop := true;
        } else {
          n, depth := next.value, depth + 1;
          ChildAt(nodes, at, input[..depth], if depth < |input| then input[depth] else 0);
          if nodes[n].leaf.Some? && |nodes[n].children| < 1 { stop := true; }
        }
      }
      WalkEnds(nodes, at, added, input, depth);
    }

    /** extract_esc_cap */
    method ExtractCap(input: seq<Byte>) returns (r: Lookup)
      requires Valid()
      ensures r == Recognise(added, input)
    {
      var n, depth := Find(input);
      if nodes[n].leaf.Some? { return Found(nodes[n].leaf.value, input[depth..]); }
      if |nodes[n].children| > 0 && |input| <= depth { return NeedMore; }
      return NotACap;
    }
  }
}
