/** What a read-name trie holds, as a value: a score and, for each next name
    segment, the subtree below it. Nodes that were only passed through carry
    the "unscored" value -1, so a path of segments reads as the score of the
    node it leads to, or -1 when it leads nowhere. */
module TrieSpec {
  import opened JavaInt
  import opened Optional

  type Path = seq<string>

  datatype Tree = Tree(score: int32, kids: map<string, Tree>)

  /** The score of a node that was never given one, and of a missing read. */
  const Unscored: int32 := -1

  /** A node as it is created: unscored, without children. */
  const Leaf: Tree := Tree(Unscored, map[])

  /** The child at `k`, or a fresh leaf when there is none. */
  function ChildOr(t: Tree, k: string): Tree
  {
    if k in t.kids then t.kids[k] else Leaf
  }

  /** The score of the node `p` leads to, -1 as soon as a segment has no child. */
  function Lookup(t: Tree, p: Path): int32
    decreases |p|
  {
    if p == [] then t.score
    else if p[0] in t.kids then Lookup(t.kids[p[0]], p[1..])
    else Unscored
  }

  /** `p` leads to a node of `t`. */
  predicate IsNode(t: Tree, p: Path)
    decreases |p|
  {
    p == [] || (p[0] in t.kids && IsNode(t.kids[p[0]], p[1..]))
  }

  /** Store score `s` at path `p`, creating every missing node on the way
      unscored. */
  function Insert(t: Tree, p: Path, s: int32): Tree
    decreases |p|
  {
    if p == [] then t.(score := s)
    else t.(kids := t.kids[p[0] := Insert(ChildOr(t, p[0]), p[1..], s)])
  }

  /** One step of `Insert`, for a path given as its first segment and the rest. */
  lemma InsertStep(t: Tree, k: string, rest: Path, s: int32)
    ensures Insert(t, [k] + rest, s) == t.(kids := t.kids[k := Insert(ChildOr(t, k), rest, s)])
  {
    var p := [k] + rest;
    assert p[0] == k && p[1..] == rest;
  }

  /** Replacing a subtree twice keeps the second replacement. */
  lemma ReplaceKid(t: Tree, k: string, a: Tree, b: Tree)
    ensures var t1 := t.(kids := t.kids[k := a]); t1.(kids := t1.kids[k := b]) == t.(kids := t.kids[k := b])
  {
    assert t.kids[k := a][k := b] == t.kids[k := b];
  }

  /** A fresh trie holds nothing: every path reads as unscored and only the
      root is a node. */
  lemma LeafIsEmpty(p: Path)
    ensures Lookup(Leaf, p) == Unscored
    ensures IsNode(Leaf, p) <==> p == []
  {
  }

  /** Following a segment reads the child, or a leaf when there is none. */
  lemma LookupChildOr(t: Tree, k: string, rest: Path)
    ensures Lookup(t, [k] + rest) == Lookup(ChildOr(t, k), rest)
  {
    var p := [k] + rest;
    assert p[0] == k && p[1..] == rest;
    LeafIsEmpty(rest);
  }

  /** After storing `s` at `p`, `p` reads as `s` and every other path reads as
      before: a store affects exactly one read name. */
  lemma {:induction false} InsertLookup(t: Tree, p: Path, s: int32, q: Path)
    ensures Lookup(Insert(t, p, s), q) == if q == p then s else Lookup(t, q)
    decreases |p|
  {
    if p != [] && q != [] {
      var k, rest := p[0], p[1..];
      assert p == [k] + rest;
      InsertStep(t, k, rest, s);
      var t' := Insert(t, p, s);
      if q[0] == k {
        var qr := q[1..];
        assert q == [k] + qr;
        LookupChildOr(t', k, qr);
        LookupChildOr(t, k, qr);
        InsertLookup(ChildOr(t, k), rest, s, qr);
      } else {
        assert q != p;
      }
    }
  }

  /** After storing at `p`, the nodes are the old ones and every prefix of
      `p`: the intermediate segments of a name become nodes too. */
  lemma {:induction false} InsertNodes(t: Tree, p: Path, s: int32, q: Path)
    ensures IsNode(Insert(t, p, s), q) <==> IsNode(t, q) || q <= p
    decreases |p|
  {
    if p != [] && q != [] {
      var k, rest := p[0], p[1..];
      assert p == [k] + rest;
      InsertStep(t, k, rest, s);
      var qr := q[1..];
      if q[0] == k {
        InsertNodes(ChildOr(t, k), rest, s, qr);
        LeafIsEmpty(qr);
        assert q <= p <==> qr <= rest;
      } else {
        assert !(q <= p);
      }
    }
  }

  /** A read stored with the unscored value -1 cannot be told from one never
      stored: `hasRead` reports it absent. */
  lemma StoredUnscoredIsAbsent(t: Tree, p: Path)
    ensures Lookup(Insert(t, p, Unscored), p) == Unscored
  {
    InsertLookup(t, p, Unscored, p);
  }

  /** Storing twice at one path keeps the second score, not the larger one;
      the trie is as if only the second store had happened. */
  lemma {:induction false} InsertOverwrites(t: Tree, p: Path, a: int32, b: int32)
    ensures Insert(Insert(t, p, a), p, b) == Insert(t, p, b)
    decreases |p|
  {
    if p != [] {
      var k := p[0];
      assert ChildOr(Insert(t, p, a), k) == Insert(ChildOr(t, k), p[1..], a);
      InsertOverwrites(ChildOr(t, k), p[1..], a, b);
    }
  }

  // ---------------------------------------------------------------------------
  // A sequence of stores, as loading a file performs them

  datatype Entry = Entry(path: Path, score: int32)

  function InsertAll(t: Tree, es: seq<Entry>): Tree
  {
    if es == [] then t
    else
      var last := es[|es| - 1];
      Insert(InsertAll(t, es[..|es| - 1]), last.path, last.score)
  }

  /** One more store at the end of a sequence of stores. */
  lemma InsertAllStep(t: Tree, es: seq<Entry>, e: Entry)
    ensures InsertAll(t, es + [e]) == Insert(InsertAll(t, es), e.path, e.score)
  {
    assert (es + [e])[..|es|] == es;
  }

  /** The position of the last entry that stores at `p`, if any. */
  function LastStore(es: seq<Entry>, p: Path): (r: Option<nat>)
    ensures r.None? <==> forall j :: 0 <= j < |es| ==> es[j].path != p
    ensures r.Some? ==> r.value < |es| && es[r.value].path == p
    ensures r.Some? ==> forall j :: r.value < j < |es| ==> es[j].path != p
  {
    if es == [] then None
    else if es[|es| - 1].path == p then Some(|es| - 1)
    else
      var init := es[..|es| - 1];
      assert forall j :: 0 <= j < |init| ==> init[j] == es[j];
      LastStore(init, p)
  }

  /** After a sequence of stores, a path reads as the score of the last store
      to it, or as before when nothing was stored there. */
  lemma {:induction false} InsertAllLookup(t: Tree, es: seq<Entry>, p: Path)
    ensures Lookup(InsertAll(t, es), p) ==
      match LastStore(es, p)
      case Some(j) => es[j].score
      case None => Lookup(t, p)
  {
    if es != [] {
      var init, last := es[..|es| - 1], es[|es| - 1];
      InsertAllLookup(t, init, p);
      InsertLookup(InsertAll(t, init), last.path, last.score, p);
      if last.path != p {
        assert LastStore(es, p) == LastStore(init, p);
      }
    }
  }

  /** The nodes after a sequence of stores: the old ones and every prefix of
      a stored path. */
  lemma {:induction false} InsertAllNodes(t: Tree, es: seq<Entry>, q: Path)
    ensures IsNode(InsertAll(t, es), q) <==> IsNode(t, q) || exists j :: 0 <= j < |es| && q <= es[j].path
  {
    if es != [] {
      var init, last := es[..|es| - 1], es[|es| - 1];
      InsertAllNodes(t, init, q);
      InsertNodes(InsertAll(t, init), last.path, last.score, q);
      if exists j :: 0 <= j < |init| && q <= init[j].path {
        var j :| 0 <= j < |init| && q <= init[j].path;
        assert es[j] == init[j];
      }
      if exists j :: 0 <= j < |es| && q <= es[j].path {
        var j :| 0 <= j < |es| && q <= es[j].path;
        if j < |init| {
          assert init[j] == es[j];
        }
      }
    }
  }

  /** A path that no entry stores at reads as absent after loading into an
      empty trie: whether it leaves every stored path, runs past the end of
      one, or stops short of one. */
  lemma NeverStoredIsAbsent(es: seq<Entry>, q: Path)
    requires forall j :: 0 <= j < |es| ==> es[j].path != q
    ensures Lookup(InsertAll(Leaf, es), q) == Unscored
  {
    InsertAllLookup(Leaf, es, q);
    LeafIsEmpty(q);
  }

  /** A proper prefix of a stored path that was never stored itself is a
      node of the trie, yet reads as absent. */
  lemma PrefixNodeIsAbsent(es: seq<Entry>, q: Path, j: nat)
    requires j < |es| && q < es[j].path
    requires forall i :: 0 <= i < |es| ==> es[i].path != q
    ensures IsNode(InsertAll(Leaf, es), q)
    ensures Lookup(InsertAll(Leaf, es), q) == Unscored
  {
    InsertAllNodes(Leaf, es, q);
    NeverStoredIsAbsent(es, q);
  }
}
