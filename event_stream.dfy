/**
 * The reader's walk over the source trees, as a step function on its cursor.
 *
 * A cursor is the position of the tree-name iterator, the current tree (null
 * after a failed look-up), the current tree's entry count and the index of the
 * next entry to read. Each call of `ReadNextEvent` performs one step: it either
 * reads one entry, or reports that no tree remains, or fails because the next
 * tree is missing from the file.
 *
 * `NextStep` is the step as written: on reaching the end of a tree it opens the
 * next one and reads its first entry without checking that there is one. An
 * empty tree other than the first therefore leaves the entry index above the
 * entry count, the end-of-tree test never succeeds again, and every later call
 * reports an event while reading past the end of the tree, which leaves the
 * read buffers as they were. `NextStepFixed` keeps opening trees until one has
 * an entry left; it agrees with `NextStep` whenever the trees it opens are
 * non-empty, and it delivers every entry of every tree in order, then the end.
 */
module EventStream {
  import opened Wrappers

  /** One lepton of an entry, as stored in the tree's lepton branches. */
  datatype LeptonRow = LeptonRow(pt: real, eta: real, phi: real, iso: real, flavour: int)

  /** One jet of an entry, as stored in the tree's jet branches. */
  datatype JetRow = JetRow(pt: real, eta: real, phi: real, bTag: real, flavour: int)

  /** One entry of a tree: the object collections, the three MET values and the generator weight. */
  datatype Entry = Entry(
    leptons: seq<LeptonRow>,
    jets: seq<JetRow>,
    jetsJECUp: seq<JetRow>,
    jetsJECDown: seq<JetRow>,
    metPt: real, metPhi: real,
    metJECUpPt: real, metJECUpPhi: real,
    metJECDownPt: real, metJECDownPhi: real,
    rawWeight: real)

  /** A tree is its sequence of entries. */
  type Tree = seq<Entry>

  /** The trees stored in a source file, by name. */
  type TreeStore = map<string, Tree>

  /** Capacity of each read buffer. */
  const MaxSize: nat := 64

  /** Every collection of the entry fits in its read buffer. */
  predicate FitsBuffers(e: Entry) {
    |e.leptons| <= MaxSize && |e.jets| <= MaxSize && |e.jetsJECUp| <= MaxSize && |e.jetsJECDown| <= MaxSize
  }

  /** The reader's position: tree-name iterator, current tree (None = null), entry count and next entry index. */
  datatype Cursor = Cursor(it: nat, tree: Option<Tree>, nEntries: nat, curEntry: nat)

  /** What one call reports: an event was read, no tree remains, or the next tree is missing from the file. */
  datatype Outcome = Event | NoMoreEvents | MissingTree(name: string)

  /** One step: the new position, its outcome, and the entry read (None = the read was past the tree's end). */
  datatype Step = Step(next: Cursor, outcome: Outcome, fetched: Option<Entry>)

  /** The position after construction: on the first tree, before its first entry. */
  function Start(store: TreeStore, names: seq<string>): (c: Cursor)
    requires |names| > 0 && names[0] in store
    ensures c.it == 0 && c.tree == Some(store[names[0]]) && c.nEntries == |store[names[0]]| && c.curEntry == 0
  {
    Cursor(0, Some(store[names[0]]), |store[names[0]]|, 0)
  }

  /**
   * A position from which a read is defined: the iterator is not past the last
   * name, and either a tree is open or the current one counts as finished.
   */
  predicate CanRead(names: seq<string>, c: Cursor) {
    c.it < |names| && (c.tree.Some? || c.curEntry == c.nEntries)
  }

  /** A position the corrected reader keeps: a tree is open, the count is its length, and the index is within it. */
  predicate InTree(store: TreeStore, names: seq<string>, c: Cursor) {
    && c.it < |names| && names[c.it] in store && c.tree == Some(store[names[c.it]])
    && c.nEntries == |c.tree.value| && c.curEntry <= c.nEntries
  }

  /** Inside a tree with an entry left, the corrected step reads that entry and moves past it. */
  lemma ReadStepFixed(store: TreeStore, names: seq<string>, c: Cursor)
    requires InTree(store, names, c) && c.curEntry < c.nEntries
    ensures NextStepFixed(store, names, c) == Step(c.(curEntry := c.curEntry + 1), Event, Some(c.tree.value[c.curEntry]))
  {
  }

  /** `TTree::GetEntry`: the entry at index i, or nothing when i is past the end. */
  function GetEntryOf(t: Tree, i: nat): Option<Entry> {
    if i < |t| then Some(t[i]) else None
  }

  /** `ReadNextEvent` as written: at the end of a tree, open the next one and read its entry 0 unchecked. */
  function NextStep(store: TreeStore, names: seq<string>, c: Cursor): (s: Step)
    requires CanRead(names, c)
    ensures s.outcome == Event ==> CanRead(names, s.next) && s.next.tree.Some?
    ensures s.outcome != Event ==> s.fetched.None?
    ensures s.next.it == c.it || s.next.it == c.it + 1
  {
    if c.curEntry == c.nEntries then
      var it := c.it + 1;
      if it == |names| then Step(c.(it := it), NoMoreEvents, None)
      else if names[it] !in store then Step(Cursor(it, None, c.nEntries, c.curEntry), MissingTree(names[it]), None)
      else
        var t := store[names[it]];
        Step(Cursor(it, Some(t), |t|, 1), Event, GetEntryOf(t, 0))
    else
      Step(c.(curEntry := c.curEntry + 1), Event, GetEntryOf(c.tree.value, c.curEntry))
  }

  /** The corrected step: at the end of a tree, keep opening trees until one has an entry left. */
  function NextStepFixed(store: TreeStore, names: seq<string>, c: Cursor): (s: Step)
    requires CanRead(names, c)
    ensures s.outcome == Event ==> CanRead(names, s.next) && s.next.tree.Some?
    ensures s.outcome != Event ==> s.fetched.None?
    ensures s.next.it >= c.it
    decreases |names| - c.it
  {
    if c.curEntry == c.nEntries then
      var it := c.it + 1;
      if it == |names| then Step(c.(it := it), NoMoreEvents, None)
      else if names[it] !in store then Step(Cursor(it, None, c.nEntries, c.curEntry), MissingTree(names[it]), None)
      else
        var t := store[names[it]];
        NextStepFixed(store, names, Cursor(it, Some(t), |t|, 0))
    else
      Step(c.(curEntry := c.curEntry + 1), Event, GetEntryOf(c.tree.value, c.curEntry))
  }

  /** Every name names a tree of the file. */
  predicate AllPresent(store: TreeStore, names: seq<string>) {
    forall k :: 0 <= k < |names| ==> names[k] in store
  }

  /** The entries of the trees named from position `from` on, tree after tree. */
  function Concat(store: TreeStore, names: seq<string>, from: nat): seq<Entry>
    requires AllPresent(store, names)
    decreases |names| - from
  {
    if from >= |names| then [] else store[names[from]] + Concat(store, names, from + 1)
  }

  /** The entries still to be read from a position: the rest of the open tree, then every later tree. */
  function Pending(store: TreeStore, names: seq<string>, c: Cursor): seq<Entry>
    requires AllPresent(store, names) && InTree(store, names, c)
  {
    c.tree.value[c.curEntry..] + Concat(store, names, c.it + 1)
  }

  /**
   * The corrected step consumes exactly the next pending entry, or reports the
   * end when nothing is pending; it never reads past a tree's end.
   */
  lemma {:induction false} FixedStepConsumesOne(store: TreeStore, names: seq<string>, c: Cursor)
    requires AllPresent(store, names) && InTree(store, names, c)
    ensures var s := NextStepFixed(store, names, c);
            if Pending(store, names, c) == [] then s.outcome == NoMoreEvents
            else
              && s.outcome == Event && InTree(store, names, s.next)
              && s.fetched == Some(Pending(store, names, c)[0])
              && Pending(store, names, s.next) == Pending(store, names, c)[1..]
    decreases |names| - c.it
  {
    var t := c.tree.value;
    if c.curEntry == c.nEntries {
      assert t[c.curEntry..] == [];
      var it := c.it + 1;
      if it < |names| {
        var c' := Cursor(it, Some(store[names[it]]), |store[names[it]]|, 0);
        FixedStepConsumesOne(store, names, c');
        assert Pending(store, names, c') == Pending(store, names, c);
      }
    } else {
      assert t[c.curEntry..] == [t[c.curEntry]] + t[c.curEntry + 1..];
    }
  }

  /**
   * From a position the reader can be in (an open tree is entered at its name
   * and read within its length), the corrected step only ever reads an existing
   * entry, and leaves the reader at such a position.
   */
  lemma {:induction false} FixedStepStaysInTree(store: TreeStore, names: seq<string>, c: Cursor)
    requires CanRead(names, c) && (c.tree.Some? ==> InTree(store, names, c))
    ensures var s := NextStepFixed(store, names, c);
            s.outcome == Event ==> s.fetched.Some? && InTree(store, names, s.next)
    decreases |names| - c.it
  {
    if c.curEntry == c.nEntries {
      var it := c.it + 1;
      if it < |names| && names[it] in store {
        var t := store[names[it]];
        FixedStepStaysInTree(store, names, Cursor(it, Some(t), |t|, 0));
      }
    }
  }

  /** What a sequence of calls observes: the entry read by each successful call, and how the sequence ended (None = still going). */
  datatype Trace = Trace(events: seq<Option<Entry>>, end: Option<Outcome>)

  /** The first `fuel` calls of the reader as written, stopping at the first call that does not report an event. */
  function Run(store: TreeStore, names: seq<string>, c: Cursor, fuel: nat): (t: Trace)
    requires CanRead(names, c)
    ensures |t.events| <= fuel
    ensures t.end.Some? ==> t.end.value != Event
    decreases fuel
  {
    if fuel == 0 then Trace([], None)
    else
      var s := NextStep(store, names, c);
      if s.outcome != Event then Trace([], Some(s.outcome))
      else
        var rest := Run(store, names, s.next, fuel - 1);
        Trace([s.fetched] + rest.events, rest.end)
  }

  /** The first `fuel` calls of the corrected reader. */
  function RunFixed(store: TreeStore, names: seq<string>, c: Cursor, fuel: nat): (t: Trace)
    requires CanRead(names, c)
    ensures |t.events| <= fuel
    ensures t.end.Some? ==> t.end.value != Event
    decreases fuel
  {
    if fuel == 0 then Trace([], None)
    else
      var s := NextStepFixed(store, names, c);
      if s.outcome != Event then Trace([], Some(s.outcome))
      else
        var rest := RunFixed(store, names, s.next, fuel - 1);
        Trace([s.fetched] + rest.events, rest.end)
  }

  /** The entries, each as a successful read. */
  function Delivered(entries: seq<Entry>): (r: seq<Option<Entry>>)
    ensures |r| == |entries| && forall k :: 0 <= k < |r| ==> r[k] == Some(entries[k])
  {
    if entries == [] then [] else [Some(entries[0])] + Delivered(entries[1..])
  }

  /** From any in-tree position, the corrected reader delivers exactly the pending entries in order and then reports the end. */
  lemma {:induction false} DrainFixed(store: TreeStore, names: seq<string>, c: Cursor)
    requires AllPresent(store, names) && InTree(store, names, c)
    ensures RunFixed(store, names, c, |Pending(store, names, c)| + 1)
            == Trace(Delivered(Pending(store, names, c)), Some(NoMoreEvents))
    decreases |Pending(store, names, c)|
  {
    FixedStepConsumesOne(store, names, c);
    var p := Pending(store, names, c);
    if p != [] {
      var s := NextStepFixed(store, names, c);
      DrainFixed(store, names, s.next);
    }
  }

  /** After construction, the corrected reader delivers every entry of every named tree, tree by tree, and then reports the end. */
  lemma ReadsAllTreesInOrder(store: TreeStore, names: seq<string>)
    requires |names| > 0 && AllPresent(store, names)
    ensures var c := Start(store, names);
            RunFixed(store, names, c, |Concat(store, names, 0)| + 1)
              == Trace(Delivered(Concat(store, names, 0)), Some(NoMoreEvents))
  {
    var c := Start(store, names);
    assert c.tree.value[0..] == store[names[0]];
    assert Pending(store, names, c) == Concat(store, names, 0);
    DrainFixed(store, names, c);
  }

  /** Every tree named after position `it` has at least one entry. */
  predicate LaterTreesNonEmpty(store: TreeStore, names: seq<string>, it: nat) {
    forall k :: it < k < |names| && names[k] in store ==> |store[names[k]]| > 0
  }

  /** When no later tree is empty, the step as written and the corrected step coincide. */
  lemma StepsAgreeOnNonEmptyTrees(store: TreeStore, names: seq<string>, c: Cursor)
    requires CanRead(names, c) && LaterTreesNonEmpty(store, names, c.it)
    ensures NextStep(store, names, c) == NextStepFixed(store, names, c)
  {
    if c.curEntry == c.nEntries && c.it + 1 < |names| && names[c.it + 1] in store {
      var t := store[names[c.it + 1]];
      assert |t| > 0;
    }
  }

  /** When no tree after the first is empty, the reader as written observes exactly what the corrected reader observes. */
  lemma {:induction false} RunsAgreeOnNonEmptyTrees(store: TreeStore, names: seq<string>, c: Cursor, fuel: nat)
    requires CanRead(names, c) && LaterTreesNonEmpty(store, names, c.it)
    ensures Run(store, names, c, fuel) == RunFixed(store, names, c, fuel)
    decreases fuel
  {
    if fuel > 0 {
      StepsAgreeOnNonEmptyTrees(store, names, c);
      var s := NextStep(store, names, c);
      if s.outcome == Event {
        RunsAgreeOnNonEmptyTrees(store, names, s.next, fuel - 1);
      }
    }
  }

  /** With every tree after the first non-empty, the reader as written delivers every entry in order and then reports the end. */
  lemma ReadsAllNonEmptyTreesInOrder(store: TreeStore, names: seq<string>)
    requires |names| > 0 && AllPresent(store, names) && LaterTreesNonEmpty(store, names, 0)
    ensures var c := Start(store, names);
            Run(store, names, c, |Concat(store, names, 0)| + 1)
              == Trace(Delivered(Concat(store, names, 0)), Some(NoMoreEvents))
  {
    RunsAgreeOnNonEmptyTrees(store, names, Start(store, names), |Concat(store, names, 0)| + 1);
    ReadsAllTreesInOrder(store, names);
  }

  /** Past the end of an empty tree, every call of the reader as written reports an event and reads nothing. */
  lemma {:induction false} PastEmptyTreeForever(store: TreeStore, names: seq<string>, c: Cursor, fuel: nat)
    requires c.it < |names| && c.tree == Some([]) && c.nEntries == 0 && c.curEntry >= 1
    ensures Run(store, names, c, fuel) == Trace(seq(fuel, k => None), None)
    decreases fuel
  {
    if fuel > 0 {
      var s := NextStep(store, names, c);
      PastEmptyTreeForever(store, names, s.next, fuel - 1);
      assert [s.fetched] + seq(fuel - 1, k => None) == seq(fuel, k => None);
    }
  }

  /**
   * Two trees, the second empty: the reader as written delivers the one entry and
   * then reports an event on every call, never the end; the corrected reader
   * delivers the entry and then reports the end.
   */
  lemma EmptySecondTreeNeverEnds(e: Entry, fuel: nat)
    ensures var store := map["A" := [e], "B" := []];
            var names := ["A", "B"];
            && Run(store, names, Start(store, names), fuel + 2) == Trace([Some(e)] + seq(fuel + 1, k => None), None)
            && RunFixed(store, names, Start(store, names), 2) == Trace([Some(e)], Some(NoMoreEvents))
  {
    var store := map["A" := [e], "B" := []];
    var names := ["A", "B"];
    var c0 := Start(store, names);
    var s1 := NextStep(store, names, c0);
    assert s1.fetched == Some(e);
    var s2 := NextStep(store, names, s1.next);
    assert s2.next == Cursor(1, Some([]), 0, 1);
    PastEmptyTreeForever(store, names, s2.next, fuel);
    assert [s2.fetched] + seq(fuel, k => None) == seq(fuel + 1, k => None);
    var f1 := NextStepFixed(store, names, c0);
    assert f1.next == Cursor(0, Some([e]), 1, 1);
    var f2 := NextStepFixed(store, names, Cursor(1, Some([]), 0, 0));
    assert f2.outcome == NoMoreEvents;
    assert NextStepFixed(store, names, f1.next) == f2;
  }
}
