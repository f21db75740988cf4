/** The list logic of `_winregUpdatePath`: new directories go in front of
    the current `;`-separated user PATH, empty entries are removed and
    repeated entries dropped. The registry value is read and written as a
    plain string. */
module PathUpdate {
  import opened Lists
  import opened PyText

  predicate NonEmpty(entry: string) {
    entry != ""
  }

  /** The entries written back: dedupe of the non-empty entries of the new
      paths followed by the current ones. */
  function PathEntries(current: string, newPaths: seq<string>): seq<string>
  {
    Dedupe(Filter(newPaths + Split(current, ';'), NonEmpty))
  }

  /** Computes the new PATH value from the current one (the empty string
      when the registry has none). */
  method UpdatePath(current: string, newPaths: seq<string>) returns (written: string)
    ensures written == Join(PathEntries(current, newPaths), ';')
  {
    var curPaths := Split(current, ';');
    var paths := newPaths + curPaths;
    while "" in paths
      invariant Filter(paths, NonEmpty) == Filter(newPaths + curPaths, NonEmpty)
      decreases |paths|
    {
      var i := FirstIndex(paths, "");
      RemoveDropped(paths, i, NonEmpty);
      paths := paths[..i] + paths[i + 1..];
    }
    FilterKeepsAll(paths, NonEmpty);
    var uniques := ListDedupe(paths);
    written := Join(uniques, ';');
  }

  /** The written entries are non-empty, distinct, and exactly the non-empty
      entries of the new and the current PATH. */
  lemma PathEntriesShape(current: string, newPaths: seq<string>)
    ensures NoDups(PathEntries(current, newPaths))
    ensures forall k :: 0 <= k < |PathEntries(current, newPaths)| ==>
      PathEntries(current, newPaths)[k] != ""
    ensures forall x :: x in PathEntries(current, newPaths) <==>
      x != "" && (x in newPaths || x in Split(current, ';'))
  {
    var s := Filter(newPaths + Split(current, ';'), NonEmpty);
    DedupeNoDups(s);
    DedupeElements(s);
    FilterMembers(newPaths + Split(current, ';'), NonEmpty);
    forall k | 0 <= k < |Dedupe(s)|
      ensures Dedupe(s)[k] != ""
    {
      assert Dedupe(s)[k] in Dedupe(s);
    }
  }

  /** Every non-empty new path comes before every entry that is only in the
      current PATH. */
  lemma NewPathsFirst(current: string, newPaths: seq<string>)
    ensures forall i, j ::
      (0 <= i < |PathEntries(current, newPaths)| && 0 <= j < |PathEntries(current, newPaths)| &&
       PathEntries(current, newPaths)[i] in newPaths && PathEntries(current, newPaths)[j] !in newPaths)
      ==> i < j
  {
    var front, back := Filter(newPaths, NonEmpty), Filter(Split(current, ';'), NonEmpty);
    var s := Filter(newPaths + Split(current, ';'), NonEmpty);
    FilterConcat(newPaths, Split(current, ';'), NonEmpty);
    assert s == front + back;
    FilterMembers(newPaths, NonEmpty);
    FilterMembers(newPaths + Split(current, ';'), NonEmpty);
    var e := Dedupe(s);
    forall i, j | 0 <= i < |e| && 0 <= j < |e| && e[i] in newPaths && e[j] !in newPaths
      ensures i < j
    {
      DedupeMember(s, e[i]);
      DedupeMember(s, e[j]);
      assert e[i] in front;
      FirstIndexPrefix(front, back, e[i]);
      FirstIndexSuffix(front, back, e[j]);
      if j < i {
        DedupeOrderAt(s, j, i);
        assert false;
      }
    }
  }

  /** When no new path contains `;`, the written value splits back into the
      entries; it is empty exactly when there are none. */
  lemma WrittenValueSplits(current: string, newPaths: seq<string>)
    requires forall k :: 0 <= k < |newPaths| ==> ';' !in newPaths[k]
    ensures Join(PathEntries(current, newPaths), ';') == "" <==> PathEntries(current, newPaths) == []
    ensures PathEntries(current, newPaths) != [] ==>
      Split(Join(PathEntries(current, newPaths), ';'), ';') == PathEntries(current, newPaths)
  {
    var e := PathEntries(current, newPaths);
    PathEntriesShape(current, newPaths);
    JoinEmpty(e, ';');
    forall k | 0 <= k < |e|
      ensures ';' !in e[k]
    {
      assert e[k] in e;
      if e[k] !in newPaths {
        var m :| 0 <= m < |Split(current, ';')| && Split(current, ';')[m] == e[k];
      }
    }
    if e != [] {
      SplitJoin(e, ';');
    }
  }
}
