/**
 * The Inspector object: its options, its three tables and the events it
 * emits. Each method changes the object's fields step by step as the
 * original does, and states its new state through the functions of
 * InspectorSpec, whose properties are proved there.
 */
module Inspection {
  import opened Common
  import opened NodeUtils
  import opened InspectorSpec

  /** The options object; an absent option and the number 0 are both falsy. */
  datatype Options = Options(fuzzy: Option<int>, distance: Option<int>, threshold: Option<int>, diff: bool)

  /** `opt || fallback` for a numeric option. */
  function OrDefault(opt: Option<int>, fallback: int): (r: int)
    ensures opt.Some? && opt.value != 0 ==> r == opt.value
    ensures opt.None? || opt.value == 0 ==> r == fallback
  {
    if opt.None? || opt.value == 0 then fallback else opt.value
  }

  /** A file given to run: its text, and the tree the parser builds from it. */
  datatype Source = Source(contents: string, tree: Node)

  /** `fileContents[path] = contents` for each file in turn: every path read
      holds the contents of the last file read under it, and every other
      entry keeps what it held. */
  function Recorded(m: map<string, string>, paths: seq<string>, files: seq<Source>): (r: map<string, string>)
    requires |paths| == |files|
    ensures forall p :: p in r <==> p in m || p in paths
    ensures forall p :: p in m && p !in paths ==> r[p] == m[p]
    ensures forall i :: 0 <= i < |paths| && (forall j :: i < j < |paths| ==> paths[j] != paths[i]) ==>
      r[paths[i]] == files[i].contents
    decreases |paths|
  {
    if paths == [] then m
    else
      var r := Recorded(m[paths[0] := files[0].contents], paths[1..], files[1..]);
      assert forall i :: 0 < i < |paths| ==> paths[1..][i - 1] == paths[i] && files[1..][i - 1] == files[i];
      r
  }

  function Trees(files: seq<Source>): (r: seq<Node>)
    ensures |r| == |files|
    ensures forall i :: 0 <= i < |r| ==> r[i] == files[i].tree
  {
    seq(|files|, i requires 0 <= i < |files| => files[i].tree)
  }

  /** The events of one emission loop: `identical` for the identical table, `fuzzy` otherwise. */
  function Evs(table: Option<Index>, groups: seq<seq<Node>>): seq<Event>
  {
    if table.None? then IdenticalEvents(groups) else FuzzyEvents(groups)
  }

  lemma EvsCons(table: Option<Index>, group: seq<Node>, groups: seq<seq<Node>>)
    ensures Evs(table, [group] + groups) == [if table.None? then IdenticalMatch(group) else FuzzyMatch(group)] + Evs(table, groups)
  {
  }

  /** Matches framed by `start` and `end` after earlier events: every event
      between the two is a match of at least two nodes. */
  lemma Bracketed(before: seq<Event>, evs: seq<Event>)
    requires forall j :: 0 <= j < |evs| ==> (evs[j].IdenticalMatch? || evs[j].FuzzyMatch?) && |evs[j].nodes| >= 2
    ensures var all := before + [Start] + evs + [End];
      forall j :: |before| < j < |all| - 1 ==> (all[j].IdenticalMatch? || all[j].FuzzyMatch?) && |all[j].nodes| >= 2
  {
    var all := before + [Start] + evs + [End];
    forall j | |before| < j < |all| - 1
      ensures (all[j].IdenticalMatch? || all[j].FuzzyMatch?) && |all[j].nodes| >= 2
    {
      assert all[j] == evs[j - |before| - 1];
    }
  }

  class Inspector {
    const filePaths: seq<string>
    const fuzzy: int
    const distance: int
    const threshold: int
    const diff: bool
    var fileContents: map<string, string>
    var identical: Index
    var fuzzyHead: Index
    var fuzzyTail: Index
    /** Everything emitted so far, in order. */
    var events: seq<Event>

    function Cfg(): Config
    {
      Config(fuzzy, distance, threshold)
    }

    function Tabs(): Tables
      reads this
    {
      Tables(identical, fuzzyHead, fuzzyTail)
    }

    /** The tables are well formed and the threshold is positive. */
    ghost predicate Valid()
      reads this
    {
      threshold >= 1 && TablesValid(Tabs())
    }

    /** new Inspector(filePaths, opts): an absent list is empty; fuzzy and
        distance default to 0 and threshold to 20 when absent or 0. A
        negative threshold is not accepted. */
    constructor(paths: Option<seq<string>>, opts: Option<Options>)
      requires opts.Some? ==> OrDefault(opts.value.threshold, 20) >= 0
      ensures filePaths == (if paths.Some? then paths.value else [])
      ensures opts.None? ==> fuzzy == FuzzyHeadType && distance == 0 && threshold == 20 && !diff
      ensures opts.Some? ==> fuzzy == OrDefault(opts.value.fuzzy, FuzzyHeadType) &&
                             distance == OrDefault(opts.value.distance, 0) &&
                             threshold == OrDefault(opts.value.threshold, 20) &&
                             diff == opts.value.diff
      ensures fileContents == map[] && events == []
      ensures Tabs() == Tables(EmptyIndex, EmptyIndex, EmptyIndex)
      ensures Valid()
    {
      var o := if opts.Some? then opts.value else Options(None, None, None, false);
      filePaths := if paths.Some? then paths.value else [];
      fuzzy := OrDefault(o.fuzzy, FuzzyHeadType);
      distance := OrDefault(o.distance, 0);
      threshold := OrDefault(o.threshold, 20);
      diff := o.diff;
      fileContents := map[];
      identical := EmptyIndex;
      fuzzyHead := EmptyIndex;
      fuzzyTail := EmptyIndex;
      events := [];
      EmptyIndexValid();
    }

    /** _insertIdentical(state). */
    method InsertIdentical(state: seq<Node>)
      requires |state| > 0
      modifies this
      ensures identical == InspectorSpec.InsertIdentical(old(identical), state)
      ensures unchanged(this`fuzzyHead, this`fuzzyTail)
      ensures unchanged(this`events, this`fileContents)
    {
      var key := HashKey(state);
      var head := state[0];
      if key !in identical.buckets {
        identical := Index(identical.buckets[key := []], identical.order + [key], identical.keysOf);
      }
      if IndexOf(identical.buckets[key], head) != -1 {
        return;
      }
      identical := identical.(buckets := identical.buckets[key := identical.buckets[key] + [head]]);
      var keys := if head in identical.keysOf then identical.keysOf[head] else [];
      if IndexOf(keys, key) == -1 {
        keys := keys + [key];
      }
      identical := identical.(keysOf := identical.keysOf[head := keys]);
    }

    /** _insertFuzzyKey(key, fuzzy, node): the head table for the `head` type,
        the tail table for any other. */
    method InsertFuzzyKey(key: string, fuzzyType: int, node: Node)
      modifies this
      ensures fuzzyType == FuzzyHeadType ==> fuzzyHead == InspectorSpec.InsertFuzzyKey(old(fuzzyHead), key, node) && fuzzyTail == old(fuzzyTail)
      ensures fuzzyType != FuzzyHeadType ==> fuzzyTail == InspectorSpec.InsertFuzzyKey(old(fuzzyTail), key, node) && fuzzyHead == old(fuzzyHead)
      ensures unchanged(this`identical, this`events, this`fileContents)
    {
      var tbl := if fuzzyType == FuzzyHeadType then fuzzyHead else fuzzyTail;
      if key !in tbl.buckets {
        tbl := Index(tbl.buckets[key := []], tbl.order + [key], tbl.keysOf);
      }
      tbl := tbl.(buckets := tbl.buckets[key := tbl.buckets[key] + [node]]);
      var keys := if node in tbl.keysOf then tbl.keysOf[node] else [];
      tbl := tbl.(keysOf := tbl.keysOf[node := keys + [key]]);
      if fuzzyType == FuzzyHeadType {
        fuzzyHead := tbl;
      } else {
        fuzzyTail := tbl;
      }
    }

    /** _insertFuzzyHead(state): file the head under the key of each of the
        first `distance` proper suffixes of the state. */
    method InsertFuzzyHead(state: seq<Node>)
      requires |state| > 0
      modifies this
      ensures fuzzyHead == InspectorSpec.InsertFuzzyHead(old(fuzzyHead), state, distance)
      ensures unchanged(this`identical, this`fuzzyTail)
      ensures unchanged(this`events, this`fileContents)
    {
      var maxIndex := Min(distance + 1, |state|);
      ghost var keys := HeadKeys(state, distance);
      ghost var target := InspectorSpec.InsertFuzzyHead(fuzzyHead, state, distance);
      var i := 1;
      while i < maxIndex
        invariant 1 <= i && (maxIndex >= 1 ==> i <= maxIndex)
        invariant maxIndex >= 1 ==> |keys| == maxIndex - 1
        invariant InsertKeys(fuzzyHead, keys[Min(i - 1, |keys|)..], state[0]) == target
        invariant unchanged(this`identical, this`fuzzyTail)
        invariant unchanged(this`events, this`fileContents)
      {
        var key := HashKey(SliceFrom(state, i));
        assert keys[i - 1..][0] == key && keys[i - 1..][1..] == keys[i..];
        InsertFuzzyKey(key, FuzzyHeadType, state[0]);
        i := i + 1;
      }
    }

    /** _insertFuzzyTail(state): file the head min(distance + 1, length) times
        under the one key its loop passes. */
    method InsertFuzzyTail(state: seq<Node>)
      requires |state| > 0
      modifies this
      ensures fuzzyTail == InspectorSpec.InsertFuzzyTail(old(fuzzyTail), state, distance)
      ensures unchanged(this`identical, this`fuzzyHead)
      ensures unchanged(this`events, this`fileContents)
    {
      var length := |state|;
      var minStart := Min(distance + 1, length);
      ghost var keys := TailKeys(state, distance);
      ghost var target := InspectorSpec.InsertFuzzyTail(fuzzyTail, state, distance);
      var i := length - minStart;
      while i < length
        invariant length - minStart <= i && (minStart >= 0 ==> i <= length)
        invariant InsertKeys(fuzzyTail, keys[Min(i - (length - minStart), |keys|)..], state[0]) == target
        invariant unchanged(this`identical, this`fuzzyHead)
        invariant unchanged(this`events, this`fileContents)
      {
        var j := i - (length - minStart);
        assert keys[j..][0] == UndefinedKey && keys[j..][1..] == keys[j + 1..];
        InsertFuzzyKey(UndefinedKey, FuzzyTailType, state[0]);
        i := i + 1;
      }
    }

    /** The callback _parse hands to _walk, for one state. */
    method OnState(state: seq<Node>)
      requires 1 <= threshold <= |state|
      modifies this
      ensures Tabs() == InspectorSpec.OnState(Cfg(), old(Tabs()), state)
      ensures unchanged(this`events, this`fileContents)
    {
      var trimmed := SliceFrom(state, -threshold);
      SliceFromNegative(state, threshold);
      InsertIdentical(trimmed);
      if distance == 0 {
        return;
      }
      if fuzzy != FuzzyTailType {
        InsertFuzzyHead(trimmed);
      }
      if fuzzy != FuzzyHeadType {
        InsertFuzzyTail(trimmed);
      }
    }

    /** The inner `recurse` of _walk, with the closure's counter and last
        pushed node passed in and handed back. */
    method Recurse(node: Node, state: seq<Node>, c: Cursor) returns (c': Cursor)
      requires threshold >= 1
      modifies this
      ensures Fits(Cfg(), WalkNode(node, state, c, threshold).states)
      ensures Tabs() == Feed(Cfg(), old(Tabs()), WalkNode(node, state, c, threshold).states)
      ensures c' == WalkNode(node, state, c, threshold).cursor
      ensures unchanged(this`events, this`fileContents)
      decreases node, 1
    {
      WalkNodeFits(node, state, c, threshold);
      var push := c.i != 0 && c.prev != Some(node);
      var st := if push then state + [node] else state;
      c' := Cursor(c.i + 1, if push then Some(node) else c.prev);
      ghost var kids := WalkKids(node, st, c', threshold, 0).states;
      WalkKidsFits(node, st, c', threshold, 0);
      ghost var before := Tabs();
      if push && |st| >= threshold {
        assert WalkNode(node, state, c, threshold).states == [st] + kids;
        OnState(st);
        assert Tabs() == Feed(Cfg(), before, [st]);
        FeedAppend(Cfg(), before, [st], kids);
      } else {
        assert WalkNode(node, state, c, threshold).states == kids;
      }
      c' := RecurseKids(node, st, c');
    }

    /** The walker's visit of each child of `parent` with `recurse`, in order. */
    method RecurseKids(parent: Node, state: seq<Node>, c: Cursor) returns (c': Cursor)
      requires threshold >= 1
      modifies this
      ensures Fits(Cfg(), WalkKids(parent, state, c, threshold, 0).states)
      ensures Tabs() == Feed(Cfg(), old(Tabs()), WalkKids(parent, state, c, threshold, 0).states)
      ensures c' == WalkKids(parent, state, c, threshold, 0).cursor
      ensures unchanged(this`events, this`fileContents)
      decreases parent, 0
    {
      WalkKidsFits(parent, state, c, threshold, 0);
      ghost var target := Feed(Cfg(), Tabs(), WalkKids(parent, state, c, threshold, 0).states);
      var cs := GetChildren(parent);
      c' := c;
      var k := 0;
      while k < |cs|
        invariant 0 <= k <= |cs|
        invariant Fits(Cfg(), WalkKids(parent, state, c', threshold, k).states)
        invariant Feed(Cfg(), Tabs(), WalkKids(parent, state, c', threshold, k).states) == target
        invariant WalkKids(parent, state, c', threshold, k).cursor == WalkKids(parent, state, c, threshold, 0).cursor
        invariant unchanged(this`events, this`fileContents)
      {
        ghost var first := WalkNode(cs[k], state, c', threshold);
        ghost var rest := WalkKids(parent, state, first.cursor, threshold, k + 1);
        assert WalkKids(parent, state, c', threshold, k) == WalkOut(rest.cursor, first.states + rest.states);
        WalkNodeFits(cs[k], state, c', threshold);
        WalkKidsFits(parent, state, first.cursor, threshold, k + 1);
        FeedAppend(Cfg(), Tabs(), first.states, rest.states);
        c' := Recurse(cs[k], state, c');
        assert c' == first.cursor;
        k := k + 1;
      }
    }

    /** _parse(filePath, contents), given the tree the parser builds. */
    method Parse(tree: Node)
      requires Valid()
      modifies this
      ensures Fits(Cfg(), Walk(tree, threshold))
      ensures Tabs() == Feed(Cfg(), old(Tabs()), Walk(tree, threshold))
      ensures Valid()
      ensures unchanged(this`events, this`fileContents)
    {
      var c := Recurse(tree, [], Cursor(0, None));
      FeedValid(Cfg(), old(Tabs()), Walk(tree, threshold));
    }

    /** The callback removeNode runs for one key: when the identical bucket
        under it exists and has exactly `length` nodes, take the node out (if
        present) and delete the bucket once it is empty. */
    method RemoveUnderKey(key: string, node: Node, length: int)
      modifies this
      ensures identical == InspectorSpec.RemoveUnderKey(old(identical), key, node, length)
      ensures unchanged(this`fuzzyHead, this`fuzzyTail)
      ensures unchanged(this`events, this`fileContents)
    {
      var t := identical;
      if key !in t.buckets || |t.buckets[key]| != length {
        return;
      }
      var bucket := t.buckets[key];
      var index := IndexOf(bucket, node);
      var rest := if index > -1 then Splice(bucket, index) else bucket;
      if rest == [] {
        identical := Index(t.buckets - {key}, Without(t.order, key), t.keysOf);
      } else {
        identical := Index(t.buckets[key := rest], t.order, t.keysOf);
      }
    }

    /** removeNode inside _prune: the callback above for each key the node carries. */
    method RemoveNode(node: Node, length: int)
      requires node in identical.keysOf
      modifies this
      ensures identical == RemoveUnderKeys(old(identical), old(identical).keysOf[node], node, length)
      ensures unchanged(this`fuzzyHead, this`fuzzyTail)
      ensures unchanged(this`events, this`fileContents)
    {
      var keys := identical.keysOf[node];
      ghost var target := RemoveUnderKeys(identical, keys, node, length);
      var j := 0;
      while j < |keys|
        invariant 0 <= j <= |keys|
        invariant RemoveUnderKeys(identical, keys[j..], node, length) == target
        invariant unchanged(this`fuzzyHead, this`fuzzyTail)
        invariant unchanged(this`events, this`fileContents)
      {
        assert keys[j..][0] == keys[j] && keys[j..][1..] == keys[j + 1..];
        RemoveUnderKey(keys[j], node, length);
        j := j + 1;
      }
    }

    /** The inner `recurse` of _prune: a node that never headed an identical
        path stops the descent; otherwise it is removed and its children are
        visited. */
    method PruneVisit(node: Node, length: int)
      modifies this
      ensures identical == InspectorSpec.PruneVisit(old(identical), node, length)
      ensures unchanged(this`fuzzyHead, this`fuzzyTail)
      ensures unchanged(this`events, this`fileContents)
      decreases node
    {
      if node !in identical.keysOf {
        return;
      }
      ghost var target := InspectorSpec.PruneVisit(identical, node, length);
      RemoveNode(node, length);
      var cs := GetChildren(node);
      var k := 0;
      while k < |cs|
        invariant 0 <= k <= |cs|
        invariant PruneKids(identical, node, length, k) == target
        invariant unchanged(this`fuzzyHead, this`fuzzyTail)
        invariant unchanged(this`events, this`fileContents)
      {
        PruneVisit(cs[k], length);
        k := k + 1;
      }
    }

    /** _prune(nodes). For a group from the identical table, `nodes` is the
        live bucket: each `nodes[i]` is read from the table as it is then. */
    method Prune(g: Group)
      modifies this
      ensures var length := |if g.Live? then Bucket(old(identical), g.key) else g.nodes|;
        identical == InspectorSpec.Prune(old(identical), g, length)
      ensures unchanged(this`fuzzyHead, this`fuzzyTail)
      ensures unchanged(this`events, this`fileContents)
    {
      var length := |if g.Live? then Bucket(identical, g.key) else g.nodes|;
      ghost var target := InspectorSpec.Prune(identical, g, length);
      var i := 0;
      while i < length
        invariant 0 <= i <= length
        invariant PruneFrom(identical, g, length, i) == target
        invariant unchanged(this`fuzzyHead, this`fuzzyTail)
        invariant unchanged(this`events, this`fileContents)
      {
        var n := GroupAt(identical, g, i);
        if n.Some? {
          PruneVisit(n.value, length);
        }
        i := i + 1;
      }
    }

    /** emitMatches(event, tbl) inside _analyze: the identical table when
        `table` is None, otherwise the given fuzzy table. */
    method EmitMatches(table: Option<Index>)
      modifies this
      ensures var e := InspectorSpec.EmitMatches(old(identical), table);
        identical == e.identical && events == old(events) + Evs(table, e.groups)
      ensures unchanged(this`fuzzyHead, this`fuzzyTail, this`fileContents)
    {
      var keys := if table.Some? then table.value.order else identical.order;
      ghost var e := InspectorSpec.EmitMatches(identical, table);
      ghost var all := Evs(table, e.groups);
      var j := 0;
      while j < |keys|
        invariant 0 <= j <= |keys|
        invariant EmitFrom(identical, table, keys[j..]).identical == e.identical
        invariant events + Evs(table, EmitFrom(identical, table, keys[j..]).groups) == old(events) + all
        invariant unchanged(this`fuzzyHead, this`fuzzyTail, this`fileContents)
      {
        var key := keys[j];
        assert keys[j..][0] == key && keys[j..][1..] == keys[j + 1..];
        var tbl := if table.Some? then table.value else identical;
        if key in tbl.buckets && |tbl.buckets[key]| >= 2 {
          var group := tbl.buckets[key];
          var g := if table.Some? then Fixed(group) else Live(key);
          ghost var rest := EmitFrom(InspectorSpec.Prune(identical, g, |group|), table, keys[j + 1..]);
          assert EmitFrom(identical, table, keys[j..]) == Emission(rest.identical, [group] + rest.groups);
          var ev := if table.None? then IdenticalMatch(group) else FuzzyMatch(group);
          EvsCons(table, group, rest.groups);
          Associative(events, [ev], Evs(table, rest.groups));
          events := events + [ev];
          Prune(g);
          assert EmitFrom(identical, table, keys[j + 1..]) == rest;
        } else {
          assert EmitFrom(identical, table, keys[j..]) == EmitFrom(identical, table, keys[j + 1..]);
        }
        j := j + 1;
      }
    }

    /** _analyze(). */
    method Analyze()
      modifies this
      ensures Tabs() == InspectorSpec.Analyze(Cfg(), old(Tabs())).tables
      ensures events == old(events) + InspectorSpec.Analyze(Cfg(), old(Tabs())).events
      ensures unchanged(this`fileContents)
    {
      ghost var t := Tabs();
      ghost var e0 := events;
      ghost var e1 := InspectorSpec.EmitMatches(t.identical, None);
      EmitMatches(None);
      if distance == 0 {
        assert InspectorSpec.Analyze(Cfg(), t) == Analysis(t.(identical := e1.identical), IdenticalEvents(e1.groups));
        return;
      }
      ghost var e2 := FuzzyPass(e1.identical, fuzzy != FuzzyTailType, t.head);
      if fuzzy != FuzzyTailType {
        EmitMatches(Some(fuzzyHead));
      }
      assert identical == e2.identical && events == e0 + IdenticalEvents(e1.groups) + FuzzyEvents(e2.groups);
      ghost var e3 := FuzzyPass(e2.identical, fuzzy != FuzzyHeadType, t.tail);
      if fuzzy != FuzzyHeadType {
        EmitMatches(Some(fuzzyTail));
      }
      assert identical == e3.identical && events == e0 + IdenticalEvents(e1.groups) + FuzzyEvents(e2.groups) + FuzzyEvents(e3.groups);
      assert FuzzyEvents(e2.groups + e3.groups) == FuzzyEvents(e2.groups) + FuzzyEvents(e3.groups);
      assert InspectorSpec.Analyze(Cfg(), t) ==
        Analysis(Tables(e3.identical, t.head, t.tail), IdenticalEvents(e1.groups) + FuzzyEvents(e2.groups + e3.groups));
      Associative(IdenticalEvents(e1.groups), FuzzyEvents(e2.groups), FuzzyEvents(e3.groups));
      Associative(e0, IdenticalEvents(e1.groups), FuzzyEvents(e2.groups) + FuzzyEvents(e3.groups));
      Associative(e0 + IdenticalEvents(e1.groups), FuzzyEvents(e2.groups), FuzzyEvents(e3.groups));
    }

    /** The loop of run(): each file in turn has its contents recorded and
        its tree parsed. */
    method ParseFiles(files: seq<Source>)
      requires |files| == |filePaths| && Valid()
      modifies this
      ensures Valid() && events == old(events)
      ensures Tabs() == FeedTrees(Cfg(), old(Tabs()), Trees(files))
      ensures fileContents == Recorded(old(fileContents), filePaths, files)
    {
      var i := 0;
      while i < |files|
        invariant 0 <= i <= |files|
        invariant FeedTrees(Cfg(), Tabs(), Trees(files)[i..]) == FeedTrees(Cfg(), old(Tabs()), Trees(files))
        invariant Recorded(fileContents, filePaths[i..], files[i..]) == Recorded(old(fileContents), filePaths, files)
        invariant events == old(events)
        invariant Valid()
      {
        assert Trees(files)[i..][0] == files[i].tree && Trees(files)[i..][1..] == Trees(files)[i + 1..];
        assert filePaths[i..][1..] == filePaths[i + 1..] && files[i..][1..] == files[i + 1..];
        assert Recorded(fileContents, filePaths[i..], files[i..]) ==
          Recorded(fileContents[filePaths[i] := files[i].contents], filePaths[i + 1..], files[i + 1..]);
        fileContents := fileContents[filePaths[i] := files[i].contents];
        Parse(files[i].tree);
        i := i + 1;
      }
    }

    /** run(): `start`, then each file read (its contents recorded) and
        parsed in order, the analysis, and `end`. The contents of each file
        and the tree built from them are given. */
    method Run(files: seq<Source>)
      requires |files| == |filePaths| && Valid()
      modifies this
      ensures var fed := FeedTrees(Cfg(), old(Tabs()), Trees(files));
        Tabs() == InspectorSpec.Analyze(Cfg(), fed).tables &&
        events == old(events) + [Start] + InspectorSpec.Analyze(Cfg(), fed).events + [End]
      ensures forall j :: |old(events)| < j < |events| - 1 ==>
        (events[j].IdenticalMatch? || events[j].FuzzyMatch?) && |events[j].nodes| >= 2
      ensures fileContents == Recorded(old(fileContents), filePaths, files)
    {
      events := events + [Start];
      ghost var t0 := Tabs();
      ParseFiles(files);
      ghost var fed := Tabs();
      FeedTreesValid(Cfg(), t0, Trees(files));
      AnalyzeGroupsPaired(Cfg(), fed);
      Analyze();
      events := events + [End];
      Bracketed(old(events), InspectorSpec.Analyze(Cfg(), fed).events);
    }
  }
}
