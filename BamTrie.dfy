/** `SampleDataBamTrie`: the read scores of one BAM file, kept in a tree of
    maps keyed by the colon-separated segments of the read names, so that
    reads sharing instrument, run, flow cell and lane share nodes. */
module BamTrie {
  import opened JavaInt
  import opened ReadName
  import opened MdTag
  import opened TrieSpec
  import opened Optional

  // ---------------------------------------------------------------------------
  // Records and their scores

  /** What the trie uses of a SAM/BAM record: its read name and its optional
      `AS` (alignment score) and `MD` (mismatch string) tags. */
  datatype SamRecord = SamRecord(readName: string, asTag: Option<int32>, mdTag: Option<string>)

  /** A sufficient condition for `getScore` to return normally: the record
      has an `AS` tag, or no `MD` tag, or a well-formed `MD` tag whose runs
      each fit in an `int`. Some records outside it are scored normally too,
      such as one whose `MD` tag is "10A". */
  predicate ScoreDefined(rec: SamRecord) {
    rec.asTag.Some? || rec.mdTag.None? || ParsableMD(rec.mdTag.value)
  }

  /** The score of a record: its `AS` tag, else the matched bases of its `MD`
      tag summed into an `int`, else unscored. */
  function RecordScore(rec: SamRecord): (r: int32)
    requires ScoreDefined(rec)
    ensures rec.asTag.Some? ==> r == rec.asTag.value
    ensures rec.asTag.None? && rec.mdTag.None? ==> r == Unscored
    ensures rec.asTag.None? && rec.mdTag.Some? ==> r == Wrap(MatchedBases(rec.mdTag.value))
    ensures rec.asTag.None? && rec.mdTag.Some? && MatchedBases(rec.mdTag.value) <= MaxInt ==>
      r >= 0 && r as int == MatchedBases(rec.mdTag.value)
  {
    match rec.asTag
    case Some(a) => a
    case None =>
      match rec.mdTag
      case Some(md) => Wrap(MatchedBases(md))
      case None => Unscored
  }

  /** The store each record makes as `load` reads it. */
  function Entries(records: seq<SamRecord>): (es: seq<Entry>)
    requires forall i :: 0 <= i < |records| ==> ScoreDefined(records[i])
    ensures |es| == |records|
    ensures forall i :: 0 <= i < |records| ==>
      es[i] == Entry(Split(records[i].readName), RecordScore(records[i]))
  {
    if records == [] then []
    else
      var init := records[..|records| - 1];
      var last := records[|records| - 1];
      Entries(init) + [Entry(Split(last.readName), RecordScore(last))]
  }

  /** One step of `Entries`: the stores of a prefix of the records, then the
      next record's store. */
  lemma EntriesStep(records: seq<SamRecord>, i: nat)
    requires i < |records|
    requires forall j :: 0 <= j < |records| ==> ScoreDefined(records[j])
    ensures Entries(records[..i + 1]) ==
      Entries(records[..i]) + [Entry(Split(records[i].readName), RecordScore(records[i]))]
  {
    assert records[..i + 1][..i] == records[..i];
  }

  /** Record `j` is the last one whose name splits into `p`. */
  predicate LastWithSegments(records: seq<SamRecord>, j: int, p: Path) {
    0 <= j < |records| && Split(records[j].readName) == p &&
    forall k :: j < k < |records| ==> Split(records[k].readName) != p
  }

  /** After the stores of a sequence of records, a name reads as the score of
      the last record whose name splits the same way, and as before when no
      record's name does: duplicates overwrite, the last one wins. */
  lemma LoadedScore(t0: Tree, records: seq<SamRecord>, name: string)
    requires forall i :: 0 <= i < |records| ==> ScoreDefined(records[i])
    ensures (forall j :: 0 <= j < |records| ==> Split(records[j].readName) != Split(name)) ==>
      Lookup(InsertAll(t0, Entries(records)), Split(name)) == Lookup(t0, Split(name))
    ensures forall j :: LastWithSegments(records, j, Split(name)) ==>
      Lookup(InsertAll(t0, Entries(records)), Split(name)) == RecordScore(records[j])
  {
    var es, p := Entries(records), Split(name);
    InsertAllLookup(t0, es, p);
    match LastStore(es, p)
    case None =>
    case Some(j) =>
      forall j' | LastWithSegments(records, j', p)
        ensures j' == j
      {
      }
  }

  // ---------------------------------------------------------------------------
  // Nodes

  /** A parent, a key and the child below it: no entity of the trie itself,
      only the argument of the proof step `Node.Reattached`, passed as one
      value. */
  datatype Edge = Edge(parent: Node, key: string, child: Node)

  /** One node of the tree: a score, -1 until one is stored here, and a map
      from the next name segment to the child node, created on first use. */
  class Node {
    var score: int32
    var subtree: Option<map<string, Node>>

    /** The objects making up this node and everything below it. */
    ghost var Repr: set<object>
    /** This node and everything below it, as a value. */
    ghost var Model: Tree

    function Children(): map<string, Node>
      reads this
    {
      if subtree.Some? then subtree.value else map[]
    }

    /** A tree: children lie in the footprint, do not reach back to this node
        and share no object with each other, and `Model` mirrors the score and
        the children's models. */
    ghost predicate Valid()
      reads this, Repr
      ensures Valid() ==> this in Repr
      decreases Repr
    {
      && this in Repr
      && Model.score == score
      && Model.kids.Keys == Children().Keys
      && (forall k :: k in Children() ==>
            Children()[k] in Repr && Children()[k].Repr <= Repr && this !in Children()[k].Repr &&
            Children()[k].Valid() && Model.kids[k] == Children()[k].Model)
      && (forall k, k' :: k in Children() && k' in Children() && k != k' ==>
            Children()[k].Repr !! Children()[k'].Repr)
    }

    /** `new Node()`: unscored, without a subtree map. */
    constructor ()
      ensures Valid() && fresh(Repr) && Repr == {this}
      ensures score == Unscored && subtree.None?
      ensures Model == Leaf
    {
      score := Unscored;
      subtree := None;
      Repr := {this};
      Model := Leaf;
    }

    /** The child for `key`, created unscored if missing, together with the
        subtree map when there is none yet. */
    method GetOrAddChild(key: string) returns (child: Node)
      requires Valid()
      modifies this
      ensures Valid() && fresh(Repr - old(Repr))
      ensures key in Children() && child == Children()[key]
      ensures key in old(Children()) ==> child == old(Children())[key]
      ensures child.Model == ChildOr(old(Model), key)
      ensures Model == old(Model).(kids := old(Model).kids[key := child.Model])
    {
      if subtree.None? {
        subtree := Some(map[]);
        child := PutNewChild(key);
      } else if key !in subtree.value {
        child := PutNewChild(key);
      } else {
        child := subtree.value[key];
      }
    }

    /** A new unscored child put under a key the subtree map lacks. */
    method PutNewChild(key: string) returns (child: Node)
      requires Valid() && subtree.Some? && key !in subtree.value
      modifies this
      ensures Valid() && fresh(child) && Repr == old(Repr) + {child}
      ensures subtree == Some(old(subtree.value)[key := child])
      ensures child.Model == Leaf && Model == old(Model).(kids := old(Model).kids[key := Leaf])
    {
      child := new Node();
      subtree, Repr, Model := Some(subtree.value[key := child]), Repr + {child}, Model.(kids := Model.kids[key := Leaf]);
      forall k | k in Children() && k != key
        ensures Children()[k].Valid()
      {
        ValidFramed(Children()[k]);
      }
    }

    /** `addRec(this, names, index, s)`: follows `names[index..]` one edge at a
        time, creating each missing child, and stores `s` at the node reached. */
    method AddRec(names: seq<string>, index: nat, s: int32)
      requires Valid() && index <= |names|
      modifies Repr
      ensures Valid() && fresh(Repr - old(Repr))
      ensures Model == Insert(old(Model), names[index..], s)
      decreases |names| - index, 1
    {
      if index < |names| {
        var key := names[index];
        ghost var rest := names[index + 1..];
        assert names[index..] == [key] + rest;
        ghost var m0 := Model;
        InsertStep(m0, key, rest, s);
        var child := GetOrAddChild(key);
        ghost var c := child.Model;
        AddBelow(key, child, names, index + 1, s);
        ReplaceKid(m0, key, c, Insert(c, rest, s));
      } else {
        score, Model := s, Model.(score := s);
        Rescored(this);
      }
    }

    /** The recursive call of `addRec` on the child at `key`, seen from this
        node: the child's subtree takes the store, the rest stays as it was. */
    method AddBelow(key: string, child: Node, names: seq<string>, index: nat, s: int32)
      requires Valid() && key in Children() && child == Children()[key]
      requires index <= |names|
      modifies Repr
      ensures Valid() && fresh(Repr - old(Repr))
      ensures Model == old(Model).(kids := old(Model).kids[key := Insert(old(child.Model), names[index..], s)])
      decreases |names| - index + 1, 0
    {
      child.AddRec(names, index, s);
      Repr, Model := Repr + child.Repr, Model.(kids := Model.kids[key := child.Model]);
      Reattached(Edge(this, key, child));
    }

    /** A node whose objects were left alone is still a valid tree. */
    static twostate lemma ValidFramed(n: Node)
      requires old(n.Valid()) && unchanged(old(n.Repr))
      ensures n.Valid()
    {
    }

    /** A valid node stays valid when only its own score changed. */
    static twostate lemma Rescored(n: Node)
      requires old(n.Valid())
      requires n.subtree == old(n.subtree) && n.Repr == old(n.Repr)
      requires n.Model == old(n.Model).(score := n.score)
      requires forall o: object :: o in old(n.Repr) && o != n ==> unchanged(o)
      ensures n.Valid()
    {
      var kids := n.Children();
      forall k | k in kids
        ensures kids[k].Valid()
      {
        ValidFramed(kids[k]);
      }
    }

    /** A valid node stays valid when the child at `key` was updated into a
        valid tree that grew only by new objects, everything else under the
        node was left alone, and the node's ghost state was brought up to date. */
    static twostate lemma Reattached(e: Edge)
      requires var n, key, child := e.parent, e.key, e.child;
        && old(n.Valid())
        && old(key in n.Children() && n.Children()[key] == child)
        && n.subtree == old(n.subtree) && n.score == old(n.score)
        && child.Valid() && fresh(child.Repr - old(child.Repr)) && n !in child.Repr
        && (forall o: object :: o in old(n.Repr) && o !in old(child.Repr) && o != n ==> unchanged(o))
        && n.Repr == old(n.Repr) + child.Repr
        && n.Model.score == old(n.Model.score) && n.Model.kids.Keys == old(n.Model.kids.Keys)
        && (forall k :: k in n.Model.kids && k != key ==> n.Model.kids[k] == old(n.Model.kids[k]))
        && key in n.Model.kids && n.Model.kids[key] == child.Model
      ensures e.parent.Valid()
    {
      var n, key := e.parent, e.key;
      var kids := n.Children();
      forall k | k in kids && k != key
        ensures kids[k].Repr == old(kids[k].Repr) && kids[k].Model == old(kids[k].Model)
        ensures kids[k].Valid()
      {
        var c := kids[k];
        assert c in old(c.Repr);
        ValidFramed(c);
      }
    }

    /** `getRec(this, names, index)`: the score of the node `names[index..]`
        leads to, -1 as soon as a segment has no child. */
    function GetRec(names: seq<string>, index: nat): (r: int32)
      requires Valid() && index <= |names|
      reads Repr
      ensures r == Lookup(Model, names[index..])
      decreases |names| - index
    {
      if index == |names| then
        assert names[index..] == [];
        score
      else
        assert names[index..] == [names[index]] + names[index + 1..];
        LookupChildOr(Model, names[index], names[index + 1..]);
        if subtree.Some? && names[index] in subtree.value then
          subtree.value[names[index]].GetRec(names, index + 1)
        else
          Unscored
    }
  }

  // ---------------------------------------------------------------------------
  // The trie

  /** `SampleDataBamTrie`: the root node of the read-name tree and the number
      of records loaded so far (`entryCount`, from `SampleData`). */
  class SampleDataBamTrie {
    var data: Node
    var entryCount: int32

    ghost var Repr: set<object>

    ghost predicate Valid()
      reads this, Repr
    {
      this in Repr && data in Repr && data.Repr <= Repr && this !in data.Repr && data.Valid()
    }

    /** A new, empty trie; the file name it keeps is not modelled. */
    constructor ()
      ensures Valid() && fresh(Repr)
      ensures data.Model == Leaf && entryCount == 0
    {
      var root := new Node();
      data, entryCount := root, 0;
      Repr := {this} + root.Repr;
    }

    /** `size()`: the number of records loaded. */
    function Size(): (r: int32)
      reads this
      ensures r == entryCount
    {
      entryCount
    }

    /** `getScore(name)`: the score stored under the segments of `name`, or
        -1 when there is none. */
    function GetScore(name: string): (r: int32)
      requires Valid()
      reads Repr
      ensures r == Lookup(data.Model, Split(name))
    {
      data.GetRec(Split(name), 0)
    }

    /** `hasRead(name)`: the name reads as a score other than -1. */
    predicate HasRead(name: string)
      requires Valid()
      reads Repr
      ensures HasRead(name) <==> Lookup(data.Model, Split(name)) != Unscored
    {
      data.GetRec(Split(name), 0) != -1
    }

    /** `getScore(rec)`: the `AS` tag if present, else the score of the `MD`
        tag, else -1. */
    method GetRecordScore(rec: SamRecord) returns (score: int32)
      requires ScoreDefined(rec)
      ensures score == RecordScore(rec)
    {
      score := -1;
      if rec.asTag.Some? {
        score := rec.asTag.value;
      } else {
        if rec.mdTag.Some? {
          score := CalcScoreFromMD(rec.mdTag.value);
        } else {
          score := -1;
        }
      }
    }

    /** The record loop of `load()`: each record's score is stored under its
        split name and counted, duplicates included; returns the count. */
    method Load(records: seq<SamRecord>) returns (count: int32)
      requires Valid()
      requires forall i :: 0 <= i < |records| ==> ScoreDefined(records[i])
      modifies Repr
      ensures Valid() && fresh(Repr - old(Repr)) && data == old(data)
      ensures data.Model == InsertAll(old(data.Model), Entries(records))
      ensures entryCount == IncBy(old(entryCount), |records|)
      ensures count == Size()
    {
      ghost var t0 := data.Model;
      var i := 0;
      while i < |records|
        invariant i <= |records|
        invariant Valid() && fresh(Repr - old(Repr)) && data == old(data)
        invariant data.Model == InsertAll(t0, Entries(records[..i]))
        invariant entryCount == IncBy(old(entryCount), i)
      {
        LoadNext(records, i, t0, old(entryCount));
        i := i + 1;
      }
      assert records[..i] == records;
      count := entryCount;
    }

    /** One pass of the record loop, in terms of the records before it. */
    method LoadNext(records: seq<SamRecord>, i: nat, ghost t0: Tree, ghost c0: int32)
      requires i < |records| && Valid()
      requires forall j :: 0 <= j < |records| ==> ScoreDefined(records[j])
      requires data.Model == InsertAll(t0, Entries(records[..i]))
      requires entryCount == IncBy(c0, i)
      modifies Repr
      ensures Valid() && fresh(Repr - old(Repr)) && data == old(data)
      ensures data.Model == InsertAll(t0, Entries(records[..i + 1]))
      ensures entryCount == IncBy(c0, i + 1)
    {
      LoadRecord(records[i]);
      EntriesStep(records, i);
      InsertAllStep(t0, Entries(records[..i]), Entry(Split(records[i].readName), RecordScore(records[i])));
    }

    /** One pass of the record loop of `load()`. */
    method LoadRecord(rec: SamRecord)
      requires Valid() && ScoreDefined(rec)
      modifies Repr
      ensures Valid() && fresh(Repr - old(Repr)) && data == old(data)
      ensures data.Model == Insert(old(data.Model), Split(rec.readName), RecordScore(rec))
      ensures entryCount == Inc(old(entryCount))
    {
      var name := rec.readName;
      var alnScore := GetRecordScore(rec);
      AddRec(Split(name), 0, alnScore);
      entryCount := Inc(entryCount);
    }

    /** `addRec(data, names, index, score)` called on the root node: the store
        of `score` at `names[index..]`, the count left alone. */
    method AddRec(names: seq<string>, index: nat, s: int32)
      requires Valid() && index <= |names|
      modifies Repr
      ensures Valid() && fresh(Repr - old(Repr)) && data == old(data)
      ensures data.Model == Insert(old(data.Model), names[index..], s)
      ensures entryCount == old(entryCount)
    {
      data.AddRec(names, index, s);
      Repr := Repr + data.Repr;
    }
  }

  // ---------------------------------------------------------------------------
  // The unit tests' scenarios

  /** A new trie does not hold the read "Zork". */
  method SanityScenario() returns (found: bool)
    ensures !found
  {
    var t := new SampleDataBamTrie();
    found := t.HasRead("Zork");
    LeafIsEmpty(Split("Zork"));
  }

  /** Storing 99 under the single segment "alpha" of a new trie makes
      "alpha" present with score 99. */
  method AddRecBasicScenario() returns (found: bool, score: int32)
    ensures found && score == 99
  {
    var t := new SampleDataBamTrie();
    t.AddRec(["alpha"], 0, 99);
    assert ':' !in "alpha";
    assert ["alpha"][0..] == ["alpha"];
    InsertLookup(Leaf, ["alpha"], 99, ["alpha"]);
    found := t.HasRead("alpha");
    score := t.GetScore("alpha");
  }
}
